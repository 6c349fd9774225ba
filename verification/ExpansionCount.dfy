/** How many subrequests an expansion yields when no token is nested in other braces. */
module ExpansionCount {
  import opened Wrappers
  import opened TokenText
  import opened FlatText
  import opened JsonPathReplacer
  import opened ReplacementPoints
  import opened SubrequestExpansion

  /** In how many ways the tokens can be given values. */
  function ValueProduct(groups: seq<TokenValues>): nat {
    if groups == [] then 1 else |groups[0].values| * ValueProduct(groups[1..])
  }

  lemma {:induction false} ProductOfGroups(groups: seq<TokenValues>)
    ensures Product(GroupedByToken(groups)) == ValueProduct(groups)
  {
    if groups != [] {
      assert GroupedByToken(groups)[1..] == GroupedByToken(groups[1..]);
      ProductOfGroups(groups[1..]);
    }
  }

  lemma {:induction false} HasIndex(groups: seq<TokenValues>, t: string) returns (j: nat)
    requires Has(groups, t)
    ensures j < |groups| && groups[j].token == t
  {
    if groups[0].token == t {
      j := 0;
    } else {
      j := HasIndex(groups[1..], t);
      j := j + 1;
    }
  }

  lemma TokenFreeGroups(text: string, pool: seq<Response>, query: JsonQuery)
    requires FindTokens(text) == []
    ensures GroupsFor(text, pool, query) == Ok([])
  {
  }

  /** One replacement step leaves no token in a flat text. */
  lemma FlatTextResolves(text: string, pool: seq<Response>, query: JsonQuery, point: seq<Replacement>)
    requires BraceFreeValues(pool, query) && Flat(text) && GroupsFor(text, pool, query).Ok?
    requires var groups := GroupsFor(text, pool, query).value;
             groups != [] && point in GetPoints(GroupedByToken(groups))
    ensures ProperPoint(point) && FindTokens(ApplyPoint(point, text)) == []
  {
    var groups := GroupsFor(text, pool, query).value;
    PointsAreProper(groups);
    var left := FindTokens(ApplyPoint(point, text));
    assert left != [] ==> left[0] in left;
    PointTokens(groups, point);
    PointIsPlain(text, pool, query, point);
    GroupsMatchTokens(text, pool, query);
    PointOnFlatText(point, text);
    forall t | t in FindTokens(text) ensures t in TokensOf(point) {
      ExtractedGroups(text, pool, query, t);
      var j := HasIndex(groups, t);
      assert TokensOf(point)[j] == t;
    }
  }

  /** The clones for a flat text: as many as there are combinations, none with a token left in that text. */
  lemma FlatClones(sub: Subrequest, location: Location, pool: seq<Response>, query: JsonQuery)
    requires BraceFreeValues(pool, query) && Flat(TextAt(sub, location))
    requires GroupsFor(TextAt(sub, location), pool, query).Ok?
    requires GroupsFor(TextAt(sub, location), pool, query).value != []
    ensures var groups := GroupsFor(TextAt(sub, location), pool, query).value;
            var clones := ReplaceTokensInLocation(groups, sub, location);
            && |clones| == ValueProduct(groups)
            && forall clone | clone in clones ::
                 && FindTokens(TextAt(clone, location)) == []
                 && (location == Uri ==> clone.body == sub.body) && (location == Body ==> clone.uri == sub.uri)
  {
    var text := TextAt(sub, location);
    var groups := GroupsFor(text, pool, query).value;
    var clones, points := ReplaceTokensInLocation(groups, sub, location), GetPoints(GroupedByToken(groups));
    PointsAreTheProduct(GroupedByToken(groups), 0);
    ProductOfGroups(groups);
    PointsAreProper(groups);
    forall clone | clone in clones
      ensures FindTokens(TextAt(clone, location)) == []
      ensures (location == Uri ==> clone.body == sub.body) && (location == Body ==> clone.uri == sub.uri)
    {
      var i :| 0 <= i < |clones| && clones[i] == clone;
      CloneAt(sub, location, points, |points|, i);
      FlatTextResolves(text, pool, query, points[i]);
    }
  }

  /** The three cases of a step in which no error occurs. */
  lemma StepCases(sub: Subrequest, pool: seq<Response>, query: JsonQuery)
    requires GroupsFor(sub.uri, pool, query).Ok? && GroupsFor(sub.body, pool, query).Ok?
    ensures var uri, body := GroupsFor(sub.uri, pool, query).value, GroupsFor(sub.body, pool, query).value;
            Replacer(pool, query)(sub) ==
              if uri != [] then Expand(ReplaceTokensInLocation(uri, sub, Uri))
              else if body != [] then Expand(ReplaceTokensInLocation(body, sub, Body))
              else Finish
  {
  }

  ghost predicate Yields(sub: Subrequest, step: Stepper, depth: nat, m: int) {
    ReplaceItem(sub, step, depth).Done? && |ReplaceItem(sub, step, depth).requests| == m
  }

  lemma {:induction false} UniformBatch(batch: seq<Subrequest>, step: Stepper, depth: nat, m: int)
    requires forall sub | sub in batch :: Yields(sub, step, depth, m)
    ensures ReplaceBatch(batch, step, depth).Done? && |ReplaceBatch(batch, step, depth).requests| == |batch| * m
    decreases |batch|
  {
    if batch != [] {
      assert Yields(batch[0], step, depth, m);
      UniformBatch(batch[1..], step, depth, m);
      assert |batch| * m == m + (|batch| - 1) * m;
    }
  }

  lemma UniformExpansion(sub: Subrequest, step: Stepper, depth: nat, clones: seq<Subrequest>, m: int, total: int)
    requires total == |clones| * m
    requires depth > 0 && step(sub) == Expand(clones) && forall clone | clone in clones ::
                Yields(clone, step, depth - 1, m)
    ensures Yields(sub, step, depth, total)
  {
    UniformBatch(clones, step, depth - 1, m);
  }

  lemma TokenFreeYieldsOne(sub: Subrequest, pool: seq<Response>, query: JsonQuery, depth: nat)
    requires FindTokens(sub.uri) == [] && FindTokens(sub.body) == []
    ensures Yields(sub, Replacer(pool, query), depth, 1)
  {
    TokenFreeGroups(sub.uri, pool, query);
    TokenFreeGroups(sub.body, pool, query);
    StepCases(sub, pool, query);
  }

  lemma FlatBodySize(sub: Subrequest, pool: seq<Response>, query: JsonQuery, depth: nat)
    requires BraceFreeValues(pool, query) && depth >= 1
    requires FindTokens(sub.uri) == [] && Flat(sub.body) && GroupsFor(sub.body, pool, query).Ok?
    ensures Yields(sub, Replacer(pool, query), depth, ValueProduct(GroupsFor(sub.body, pool, query).value))
  {
    var step, body := Replacer(pool, query), GroupsFor(sub.body, pool, query).value;
    TokenFreeGroups(sub.uri, pool, query);
    StepCases(sub, pool, query);
    if body == [] {
      TokenFreeYieldsOne(sub, pool, query, depth);
    } else {
      FlatClones(sub, Body, pool, query);
      var clones := ReplaceTokensInLocation(body, sub, Body);
      forall clone | clone in clones ensures Yields(clone, step, depth - 1, 1) {
        TokenFreeYieldsOne(clone, pool, query, depth - 1);
      }
      UniformExpansion(sub, step, depth, clones, 1, |clones|);
    }
  }

  /**
   * Without nested tokens a subrequest yields one subrequest for each way to give values to the tokens of
   * its URI and of its body.
   */
  lemma FlatExpansionSize(sub: Subrequest, pool: seq<Response>, query: JsonQuery, depth: nat)
    requires BraceFreeValues(pool, query) && depth >= 2 && Flat(sub.uri) && Flat(sub.body)
    requires GroupsFor(sub.uri, pool, query).Ok? && GroupsFor(sub.body, pool, query).Ok?
    ensures Yields(sub, Replacer(pool, query), depth,
                   ValueProduct(GroupsFor(sub.uri, pool, query).value) *
                   ValueProduct(GroupsFor(sub.body, pool, query).value))
  {
    hide *;
    EmptyProduct(sub.uri, pool, query);
    var uri := GroupsFor(sub.uri, pool, query).value;
    if uri == [] {
      FlatBodySize(sub, pool, query, depth);
    } else {
      FlatUriSize(sub, pool, query, depth, uri, ValueProduct(GroupsFor(sub.body, pool, query).value));
    }
  }

  lemma EmptyProduct(text: string, pool: seq<Response>, query: JsonQuery)
    requires GroupsFor(text, pool, query).Ok?
    ensures GroupsFor(text, pool, query).value == [] ==> FindTokens(text) == [] && ValueProduct([]) == 1
  {
    GroupsMatchTokens(text, pool, query);
  }

  lemma FlatUriSize(sub: Subrequest, pool: seq<Response>, query: JsonQuery, depth: nat, uri: seq<TokenValues>, m: int)
    requires BraceFreeValues(pool, query) && depth >= 2 && Flat(sub.uri) && Flat(sub.body)
    requires GroupsFor(sub.uri, pool, query) == Ok(uri) && uri != []
    requires GroupsFor(sub.body, pool, query).Ok? && m == ValueProduct(GroupsFor(sub.body, pool, query).value)
    ensures Yields(sub, Replacer(pool, query), depth, ValueProduct(uri) * m)
  {
    hide *;
    var clones := UriClonesYield(sub, pool, query, depth - 1, uri, m);
    UniformExpansion(sub, Replacer(pool, query), depth, clones, m, ValueProduct(uri) * m);
  }

  lemma UriStep(sub: Subrequest, pool: seq<Response>, query: JsonQuery, uri: seq<TokenValues>)
    requires GroupsFor(sub.uri, pool, query) == Ok(uri) && uri != [] && GroupsFor(sub.body, pool, query).Ok?
    ensures Replacer(pool, query)(sub) == Expand(ReplaceTokensInLocation(uri, sub, Uri))
  {
  }

  lemma UriClonesYield(sub: Subrequest, pool: seq<Response>, query: JsonQuery, depth: nat, uri: seq<TokenValues>,
                       m: int)
    returns (clones: seq<Subrequest>)
    requires BraceFreeValues(pool, query) && depth >= 1 && Flat(sub.uri) && Flat(sub.body)
    requires GroupsFor(sub.uri, pool, query) == Ok(uri) && uri != []
    requires GroupsFor(sub.body, pool, query).Ok? && m == ValueProduct(GroupsFor(sub.body, pool, query).value)
    ensures Replacer(pool, query)(sub) == Expand(clones) && |clones| == ValueProduct(uri)
    ensures forall clone | clone in clones :: Yields(clone, Replacer(pool, query), depth, m)
  {
    clones := ReplaceTokensInLocation(uri, sub, Uri);
    UriStep(sub, pool, query, uri);
    FlatClones(sub, Uri, pool, query);
    forall clone | clone in clones ensures Yields(clone, Replacer(pool, query), depth, m) {
      FlatBodySize(clone, pool, query, depth);
    }
  }
}
