/** Which tokens an extraction delivers, with which values, in which order, and when it fails. */
module TokenExtraction {
  import opened Wrappers
  import opened TokenText
  import opened JsonPathReplacer
  import opened SubrequestExpansion
  import opened ExpansionCount
  import opened ExpansionResults

  // --- Values ---

  /** The groups are those of the tokens found, one for each, with everything the token finds. */
  lemma GroupsHold(text: string, pool: seq<Response>, query: JsonQuery, groups: seq<TokenValues>)
    requires GroupsFor(text, pool, query) == Ok(groups)
    ensures forall j | 0 <= j < |groups| :: groups[j].token in FindTokens(text) && IsToken(groups[j].token)
    ensures forall j | 0 <= j < |groups| :: groups[j].values == ValuesOf(groups[j].token, pool, query)
    ensures forall t | t in FindTokens(text) :: exists j :: 0 <= j < |groups| && groups[j].token == t
    ensures forall i, j | 0 <= i < j < |groups| :: groups[i].token != groups[j].token
  {
    GroupsMatchTokens(text, pool, query);
    forall j | 0 <= j < |groups|
      ensures groups[j].token in FindTokens(text) && IsToken(groups[j].token)
      ensures groups[j].values == ValuesOf(groups[j].token, pool, query)
    {
      assert groups[j] in groups;
      ExtractedGroups(text, pool, query, groups[j].token);
      MemberLookup(groups, groups[j]);
    }
    forall t | t in FindTokens(text) ensures exists j :: 0 <= j < |groups| && groups[j].token == t {
      ExtractedGroups(text, pool, query, t);
      var j := HasIndex(groups, t);
    }
    forall i, j | 0 <= i < j < |groups| ensures groups[i].token != groups[j].token { DistinctByIndex(groups, i, j); }
  }

  /** A token `{{id.body@path}}` has what `path` finds in the responses whose id contains `id`, response by response. */
  lemma BodyTokenValues(text: string, pool: seq<Response>, query: JsonQuery, groups: seq<TokenValues>, id: string,
                        path: string)
    requires GroupsFor(text, pool, query) == Ok(groups)
    requires id != "" && BraceFree(id) && path != "" && BraceFree(path) && '@' !in path
    requires "{{" + id + ".body@" + path + "}}" in FindTokens(text)
    ensures exists j ::
              && 0 <= j < |groups| && groups[j].token == "{{" + id + ".body@" + path + "}}"
              && groups[j].values == FoundIn(Subjects(pool, id), path, query)
  {
    GroupsHold(text, pool, query, groups);
    BodyTokenNames(id, path);
  }

  // --- Failure ---

  /** The values of a token can be used: some response is read, and none holds anything but strings and scalars. */
  predicate Readable(t: string, pool: seq<Response>, query: JsonQuery)
    requires IsToken(t)
  {
    && Subjects(pool, IdOf(t)) != []
    && forall r | r in Subjects(pool, IdOf(t)) :: Structured !in query(r.content, SplitToken(t).1)
  }

  lemma {:induction false} SubjectsReadable(table: seq<IdGroup>, token: string, subjects: seq<Response>,
                                            query: JsonQuery)
    requires IsToken(token)
    ensures AddSubjects(table, token, subjects, query).Ok? <==>
              forall r | r in subjects :: Structured !in query(r.content, SplitToken(token).1)
    ensures AddSubjects(table, token, subjects, query).Err? ==>
              AddSubjects(table, token, subjects, query) == Err(InvalidReplacement)
    decreases |subjects|
  {
    if subjects != [] {
      var found := query(subjects[0].content, SplitToken(token).1);
      if Structured !in found {
        SubjectsReadable(AddReplacements(table, IdOf(token), token, Leaves(found)), token, subjects[1..], query);
      }
      assert subjects == [subjects[0]] + subjects[1..];
    }
  }

  /** The first token that cannot be read decides on the error. */
  ghost predicate FailsAt(tokens: seq<string>, pool: seq<Response>, query: JsonQuery, i: nat, e: Error)
    requires forall t | t in tokens :: IsToken(t)
  {
    && i < |tokens| && (forall j | 0 <= j < i :: tokens[j] in tokens && Readable(tokens[j], pool, query))
    && tokens[i] in tokens && !Readable(tokens[i], pool, query)
    && e == if Subjects(pool, IdOf(tokens[i])) == [] then UnknownRequest(IdOf(tokens[i])) else InvalidReplacement
  }

  lemma {:induction false} CollectFails(tokens: seq<string>, pool: seq<Response>, query: JsonQuery, table: seq<IdGroup>)
    requires forall t | t in tokens :: IsToken(t)
    ensures CollectReplacements(tokens, pool, query, table).Ok? <==> forall t | t in tokens :: Readable(t, pool, query)
    ensures CollectReplacements(tokens, pool, query, table).Err? ==>
              exists i :: FailsAt(tokens, pool, query, i, CollectReplacements(tokens, pool, query, table).error)
    decreases |tokens|
  {
    if tokens != [] {
      var t, rest := tokens[0], tokens[1..];
      var subjects := Subjects(pool, IdOf(t));
      SubjectsReadable(table, t, subjects, query);
      assert tokens == [t] + rest;
      var r := CollectReplacements(tokens, pool, query, table);
      if !Readable(t, pool, query) {
        assert FailsAt(tokens, pool, query, 0, r.error);
      } else {
        var next := AddSubjects(table, t, subjects, query).value;
        CollectFails(rest, pool, query, next);
        if r.Err? {
          var i: nat :| FailsAt(rest, pool, query, i, r.error);
          LaterFails(tokens, pool, query, i, r.error);
        }
      }
    }
  }

  lemma LaterFails(tokens: seq<string>, pool: seq<Response>, query: JsonQuery, i: nat, e: Error)
    requires (forall t | t in tokens :: IsToken(t)) && tokens != [] && Readable(tokens[0], pool, query)
    requires FailsAt(tokens[1..], pool, query, i, e)
    ensures FailsAt(tokens, pool, query, i + 1, e)
  {
    hide Readable, IsToken;
    assert forall j | 0 <= j < |tokens[1..]| :: tokens[1..][j] == tokens[j + 1];
    forall j | 0 <= j < i + 1 ensures Readable(tokens[j], pool, query) {
      if j > 0 { assert tokens[j] == tokens[1..][j - 1]; }
    }
  }

  /**
   * An extraction succeeds exactly if every token of the text can be read. Otherwise the first that cannot be read, in
   * the order of the text, decides: its request is unknown, or its values are no strings or scalars.
   */
  lemma ExtractionFails(text: string, pool: seq<Response>, query: JsonQuery)
    ensures GroupsFor(text, pool, query).Ok? <==> forall t | t in FindTokens(text) :: Readable(t, pool, query)
    ensures GroupsFor(text, pool, query).Err? ==>
              exists i :: FailsAt(Dedupe(FindTokens(text)), pool, query, i, GroupsFor(text, pool, query).error)
  {
    CollectFails(Dedupe(FindTokens(text)), pool, query, []);
  }

  // --- Order ---

  /** Repeated tokens count where they stand first. */
  lemma {:induction false} DedupeKeepsFirst(tokens: seq<string>, i: nat, j: nat)
    requires i < |tokens| && j < |tokens| && tokens[i] != tokens[j]
    requires tokens[i] !in tokens[..i] && tokens[j] !in tokens[..j]
    ensures exists k, l ::
              && 0 <= k < |Dedupe(tokens)| && 0 <= l < |Dedupe(tokens)|
              && Dedupe(tokens)[k] == tokens[i] && Dedupe(tokens)[l] == tokens[j] && (k < l <==> i < j)
  {
    var n := |tokens| - 1;
    var before, d := Dedupe(tokens[..n]), Dedupe(tokens);
    if i < n && j < n {
      assert tokens[..n][..i] == tokens[..i] && tokens[..n][..j] == tokens[..j];
      DedupeKeepsFirst(tokens[..n], i, j);
      var k, l :| 0 <= k < |before| && 0 <= l < |before| && before[k] == tokens[i] && before[l] == tokens[j] &&
          (k < l <==> i < j);
      assert d[k] == tokens[i] && d[l] == tokens[j];
    } else if i == n {
      assert d == before + [tokens[n]] && tokens[j] in tokens[..n];
      var l :| 0 <= l < |before| && before[l] == tokens[j];
      assert d[|before|] == tokens[i] && d[l] == tokens[j];
    } else {
      assert d == before + [tokens[n]] && tokens[i] in tokens[..n];
      var k :| 0 <= k < |before| && before[k] == tokens[i];
      assert d[k] == tokens[i] && d[|before|] == tokens[j];
    }
  }

  function IdsOf(tokens: seq<string>): (ids: seq<string>)
    requires forall t | t in tokens :: IsToken(t)
    ensures |ids| == |tokens|
  {
    seq(|tokens|, i requires 0 <= i < |tokens| => assert tokens[i] in tokens; IdOf(tokens[i]))
  }

  /** The tokens that name one request, in order. */
  function Naming(tokens: seq<string>, id: string): seq<string>
    requires forall t | t in tokens :: IsToken(t)
  {
    if tokens == [] then []
    else
      var n := |tokens| - 1;
      assert tokens[n] in tokens;
      Naming(tokens[..n], id) + if IdOf(tokens[n]) == id then [tokens[n]] else []
  }

  function ByRequest(tokens: seq<string>, ids: seq<string>): seq<string>
    requires forall t | t in tokens :: IsToken(t)
  {
    if ids == [] then [] else Naming(tokens, ids[0]) + ByRequest(tokens, ids[1..])
  }

  function TokensIn(groups: seq<TokenValues>): seq<string> {
    seq(|groups|, i requires 0 <= i < |groups| => groups[i].token)
  }

  /** The table lists requests as they were first met, and for each its tokens as they were first met. */
  ghost predicate Sorted(table: seq<IdGroup>, tokens: seq<string>)
    requires forall t | t in tokens :: IsToken(t)
  {
    && |table| == |Dedupe(IdsOf(tokens))|
    && forall k | 0 <= k < |table| ::
         table[k].id == Dedupe(IdsOf(tokens))[k] && TokensIn(table[k].tokens) == Naming(tokens, table[k].id)
  }

  lemma {:induction false} AddAt(table: seq<IdGroup>, id: string, token: string, values: seq<Value>, i: nat)
    requires i < |table| && table[i].id == id && forall j | 0 <= j < i :: table[j].id != id
    ensures AddReplacements(table, id, token, values) ==
              table[i := IdGroup(id, AddToken(table[i].tokens, token, values))]
  {
    if i > 0 {
      assert table[0].id != id;
      assert forall j | 0 <= j < i - 1 :: table[1..][j] == table[j + 1];
      AddAt(table[1..], id, token, values, i - 1);
    }
  }

  lemma {:induction false} AddNew(table: seq<IdGroup>, id: string, token: string, values: seq<Value>)
    requires forall j | 0 <= j < |table| :: table[j].id != id
    ensures AddReplacements(table, id, token, values) == table + [IdGroup(id, [TokenValues(token, values)])]
  {
    if table != [] {
      assert table[0].id != id;
      assert forall j | 0 <= j < |table[1..]| :: table[1..][j] == table[j + 1];
      AddNew(table[1..], id, token, values);
    }
  }

  lemma {:induction false} AddTokenNames(tokens: seq<TokenValues>, token: string, values: seq<Value>)
    ensures TokensIn(AddToken(tokens, token, values)) ==
              if token in TokensIn(tokens) then TokensIn(tokens) else TokensIn(tokens) + [token]
  {
    if tokens == [] {
      assert TokensIn([TokenValues(token, values)]) == [] + [token];
    } else {
      hide TokensIn;
      HeadName(tokens[0], tokens[1..]);
      assert tokens == [tokens[0]] + tokens[1..];
      if tokens[0].token == token {
        HeadName(TokenValues(token, tokens[0].values + values), tokens[1..]);
      } else {
        AddTokenNames(tokens[1..], token, values);
        HeadName(tokens[0], AddToken(tokens[1..], token, values));
      }
    }
  }

  lemma NamesConcat(a: seq<TokenValues>, b: seq<TokenValues>)
    ensures TokensIn(a + b) == TokensIn(a) + TokensIn(b)
  {
  }

  lemma HeadName(first: TokenValues, rest: seq<TokenValues>)
    ensures TokensIn([first] + rest) == [first.token] + TokensIn(rest)
  {
  }

  lemma {:induction false} NamingMembers(tokens: seq<string>, id: string, t: string)
    requires forall u | u in tokens :: IsToken(u)
    ensures t in Naming(tokens, id) <==> t in tokens && IsToken(t) && IdOf(t) == id
  {
    if tokens != [] {
      assert tokens == tokens[..|tokens| - 1] + [tokens[|tokens| - 1]];
      NamingMembers(tokens[..|tokens| - 1], id, t);
    }
  }

  lemma NamingMore(tokens: seq<string>, t: string, id: string)
    requires (forall u | u in tokens :: IsToken(u)) && IsToken(t)
    ensures forall u | u in tokens + [t] :: IsToken(u)
    ensures Naming(tokens + [t], id) == Naming(tokens, id) + if IdOf(t) == id then [t] else []
    ensures IdsOf(tokens + [t]) == IdsOf(tokens) + [IdOf(t)]
    ensures Dedupe(IdsOf(tokens + [t])) ==
              if IdOf(t) in Dedupe(IdsOf(tokens)) then Dedupe(IdsOf(tokens)) else Dedupe(IdsOf(tokens)) + [IdOf(t)]
  {
    var more := tokens + [t];
    assert more[..|tokens|] == tokens && more[|tokens|] == t;
    assert IdsOf(more) == IdsOf(tokens) + [IdOf(t)];
    assert IdsOf(more)[..|tokens|] == IdsOf(tokens) && IdsOf(more)[|tokens|] == IdOf(t);
  }

  /** A token met for the first time goes behind those of its request, and its request behind the others. */
  lemma SortedStep(table: seq<IdGroup>, tokens: seq<string>, t: string, values: seq<Value>)
    requires (forall u | u in tokens :: IsToken(u)) && IsToken(t) && t !in tokens && Sorted(table, tokens)
    ensures forall u | u in tokens + [t] :: IsToken(u)
    ensures Sorted(AddReplacements(table, IdOf(t), t, values), tokens + [t])
  {
    hide *;
    SortedIs(table, tokens);
    NamingMore(tokens, t, IdOf(t));
    if IdOf(t) in Dedupe(IdsOf(tokens)) {
      SortedAtPlace(table, tokens, t, values);
    } else {
      SortedAtEnd(table, tokens, t, values);
    }
  }

  lemma SortedAtPlace(table: seq<IdGroup>, tokens: seq<string>, t: string, values: seq<Value>)
    requires (forall u | u in tokens :: IsToken(u)) && IsToken(t) && t !in tokens && Sorted(table, tokens)
    requires (forall u | u in tokens + [t] :: IsToken(u)) && IdOf(t) in Dedupe(IdsOf(tokens))
    ensures Sorted(AddReplacements(table, IdOf(t), t, values), tokens + [t])
  {
    hide *;
    var ids, id := Dedupe(IdsOf(tokens)), IdOf(t);
    SortedIs(table, tokens);
    NamingMore(tokens, t, id);
    NamingMembers(tokens, id, t);
    var i :| 0 <= i < |ids| && ids[i] == id;
    DistinctPlaces(IdsOf(tokens), i);
    AddAt(table, id, t, values, i);
    AddTokenNames(table[i].tokens, t, values);
    var next := AddReplacements(table, id, t, values);
    forall k | 0 <= k < |next| ensures TokensIn(next[k].tokens) == Naming(tokens + [t], ids[k]) {
      if k != i {
        NamingMore(tokens, t, ids[k]);
        NothingMore(Naming(tokens, ids[k]));
      }
    }
    SortedFrom(next, tokens + [t]);
  }

  lemma NothingMore(tokens: seq<string>)
    ensures tokens + [] == tokens
  {
  }

  lemma SortedAtEnd(table: seq<IdGroup>, tokens: seq<string>, t: string, values: seq<Value>)
    requires (forall u | u in tokens :: IsToken(u)) && IsToken(t) && Sorted(table, tokens)
    requires (forall u | u in tokens + [t] :: IsToken(u)) && IdOf(t) !in Dedupe(IdsOf(tokens))
    ensures Sorted(AddReplacements(table, IdOf(t), t, values), tokens + [t])
  {
    hide *;
    var ids, id := Dedupe(IdsOf(tokens)), IdOf(t);
    SortedIs(table, tokens);
    NamingMore(tokens, t, id);
    AddNew(table, id, t, values);
    NoNaming(tokens, id);
    OneToken(t, values);
    var next := AddReplacements(table, id, t, values);
    forall k | 0 <= k < |next| ensures TokensIn(next[k].tokens) == Naming(tokens + [t], (ids + [id])[k]) {
      if k < |table| {
        assert ids[k] != id;
        NamingMore(tokens, t, ids[k]);
        NothingMore(Naming(tokens, ids[k]));
      }
    }
    SortedFrom(next, tokens + [t]);
  }

  lemma SortedIs(table: seq<IdGroup>, tokens: seq<string>)
    requires (forall t | t in tokens :: IsToken(t)) && Sorted(table, tokens)
    ensures |table| == |Dedupe(IdsOf(tokens))|
    ensures forall k | 0 <= k < |table| :: table[k].id == Dedupe(IdsOf(tokens))[k]
    ensures forall k | 0 <= k < |table| :: TokensIn(table[k].tokens) == Naming(tokens, Dedupe(IdsOf(tokens))[k])
    ensures forall id :: id in Dedupe(IdsOf(tokens)) <==> id in IdsOf(tokens)
  {
    hide Dedupe, IdsOf, Naming, TokensIn;
  }

  lemma SortedFrom(table: seq<IdGroup>, tokens: seq<string>)
    requires forall t | t in tokens :: IsToken(t)
    requires |table| == |Dedupe(IdsOf(tokens))|
    requires forall k | 0 <= k < |table| :: table[k].id == Dedupe(IdsOf(tokens))[k]
    requires forall k | 0 <= k < |table| :: TokensIn(table[k].tokens) == Naming(tokens, Dedupe(IdsOf(tokens))[k])
    ensures Sorted(table, tokens)
  {
    hide Dedupe, IdsOf, Naming, TokensIn;
  }

  lemma DistinctPlaces(tokens: seq<string>, i: nat)
    requires i < |Dedupe(tokens)|
    ensures forall j | 0 <= j < |Dedupe(tokens)| && j != i :: Dedupe(tokens)[j] != Dedupe(tokens)[i]
  {
    hide Dedupe;
  }

  lemma OneToken(t: string, values: seq<Value>)
    ensures TokensIn([TokenValues(t, values)]) == [t] == [] + [t]
  {
  }

  lemma {:induction false} NoNaming(tokens: seq<string>, id: string)
    requires (forall u | u in tokens :: IsToken(u)) && id !in IdsOf(tokens)
    ensures Naming(tokens, id) == []
  {
    if tokens != [] {
      var n := |tokens| - 1;
      assert IdsOf(tokens)[n] == IdOf(tokens[n]) && IdsOf(tokens)[..n] == IdsOf(tokens[..n]);
      NoNaming(tokens[..n], id);
    }
  }

  /** A token met before stays where it is. */
  lemma SortedAgain(table: seq<IdGroup>, tokens: seq<string>, t: string, values: seq<Value>)
    requires (forall u | u in tokens :: IsToken(u)) && t in tokens && Sorted(table, tokens)
    ensures Sorted(AddReplacements(table, IdOf(t), t, values), tokens)
  {
    hide *;
    var ids, id := Dedupe(IdsOf(tokens)), IdOf(t);
    SortedIs(table, tokens);
    IdAmong(tokens, t);
    NamingMembers(tokens, id, t);
    var i :| 0 <= i < |ids| && ids[i] == id;
    DistinctPlaces(IdsOf(tokens), i);
    AddAt(table, id, t, values, i);
    AddTokenNames(table[i].tokens, t, values);
    SortedFrom(AddReplacements(table, id, t, values), tokens);
  }

  lemma IdAmong(tokens: seq<string>, t: string)
    requires (forall u | u in tokens :: IsToken(u)) && t in tokens
    ensures IdOf(t) in IdsOf(tokens)
  {
    var at :| 0 <= at < |tokens| && tokens[at] == t;
    assert IdsOf(tokens)[at] == IdOf(t);
  }

  lemma {:induction false} SubjectsSorted(table: seq<IdGroup>, tokens: seq<string>, t: string, subjects: seq<Response>,
                                          query: JsonQuery)
    requires (forall u | u in tokens :: IsToken(u)) && t in tokens && Sorted(table, tokens)
    requires AddSubjects(table, t, subjects, query).Ok?
    ensures Sorted(AddSubjects(table, t, subjects, query).value, tokens)
    decreases |subjects|
  {
    hide Sorted, IdOf, AddReplacements;
    if subjects != [] {
      var values := Leaves(query(subjects[0].content, SplitToken(t).1));
      SortedAgain(table, tokens, t, values);
      SubjectsSorted(AddReplacements(table, IdOf(t), t, values), tokens, t, subjects[1..], query);
    }
  }

  lemma {:induction false} CollectSorted(tokens: seq<string>, pool: seq<Response>, query: JsonQuery,
                                         table: seq<IdGroup>,
                                         met: seq<string>)
    requires forall u | u in met + tokens :: IsToken(u)
    requires (forall u | u in met :: IsToken(u)) && (forall u | u in tokens :: IsToken(u))
    requires Sorted(table, met) && forall i, j | 0 <= i < j < |met + tokens| :: (met + tokens)[i] != (met + tokens)[j]
    requires CollectReplacements(tokens, pool, query, table).Ok?
    ensures Sorted(CollectReplacements(tokens, pool, query, table).value, met + tokens)
    decreases |tokens|
  {
    hide Sorted, IdOf, AddReplacements, IsToken, Subjects, AddSubjects;
    if tokens == [] {
      assert met + tokens == met;
    } else {
      var t, rest := tokens[0], tokens[1..];
      assert met + tokens == (met + [t]) + rest;
      assert t !in met by { assert forall i | 0 <= i < |met| ::
          (met + tokens)[i] == met[i] && (met + tokens)[|met|] == t; }
      var next := AddSubjects(table, t, Subjects(pool, IdOf(t)), query).value;
      FirstSubjectSorted(table, met, t, Subjects(pool, IdOf(t)), query);
      CollectSorted(rest, pool, query, next, met + [t]);
    }
  }

  lemma FirstSubjectSorted(table: seq<IdGroup>, met: seq<string>, t: string, subjects: seq<Response>, query: JsonQuery)
    requires (forall u | u in met :: IsToken(u)) && IsToken(t) && t !in met && Sorted(table, met)
    requires subjects != [] && AddSubjects(table, t, subjects, query).Ok?
    ensures forall u | u in met + [t] :: IsToken(u)
    ensures Sorted(AddSubjects(table, t, subjects, query).value, met + [t])
  {
    hide Sorted, IdOf, AddReplacements, IsToken;
    var values := Leaves(query(subjects[0].content, SplitToken(t).1));
    SortedStep(table, met, t, values);
    SubjectsSorted(AddReplacements(table, IdOf(t), t, values), met + [t], t, subjects[1..], query);
  }

  lemma {:induction false} FlattenSorted(table: seq<IdGroup>, tokens: seq<string>, ids: seq<string>)
    requires (forall u | u in tokens :: IsToken(u)) && |ids| == |table|
    requires forall k | 0 <= k < |table| ::
               table[k].id == ids[k] && TokensIn(table[k].tokens) == Naming(tokens, table[k].id)
    ensures TokensIn(Flatten(table)) == ByRequest(tokens, ids)
  {
    if table != [] {
      assert forall k | 0 <= k < |table[1..]| :: table[1..][k] == table[k + 1] && ids[1..][k] == ids[k + 1];
      hide TokensIn, Naming;
      FlattenSorted(table[1..], tokens, ids[1..]);
      NamesConcat(table[0].tokens, Flatten(table[1..]));
    }
  }

  /**
   * The groups come request by request, as the requests are first named in the text,
     and for each request in the order in
   * which its tokens first stand there.
   */
  lemma GroupsInOrder(text: string, pool: seq<Response>, query: JsonQuery, groups: seq<TokenValues>)
    requires GroupsFor(text, pool, query) == Ok(groups)
    ensures var tokens := Dedupe(FindTokens(text));
            (forall t | t in tokens :: IsToken(t)) && TokensIn(groups) == ByRequest(tokens, Dedupe(IdsOf(tokens)))
  {
    var tokens := Dedupe(FindTokens(text));
    assert [] + tokens == tokens;
    NothingSorted();
    CollectSorted(tokens, pool, query, [], []);
    FlattenSorted(ExtractTokenReplacements(text, pool, query).value, tokens, Dedupe(IdsOf(tokens)));
  }

  lemma NothingSorted()
    ensures Sorted([], [])
  {
    assert IdsOf([]) == [];
  }
}
