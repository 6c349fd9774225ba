/** What the subrequests of a finished expansion hold, and in which order they come. */
module ExpansionResults {
  import opened Decimals
  import opened Wrappers
  import opened TokenText
  import opened Substitution
  import opened FlatText
  import opened JsonPathReplacer
  import opened ReplacementPoints
  import opened SubrequestExpansion
  import opened ExpansionCount

  // --- Batches ---

  /** A batch is expanded piece by piece: the results of the first part come before those of the second. */
  lemma {:induction false} BatchInTwoParts(a: seq<Subrequest>, b: seq<Subrequest>, step: Stepper, depth: nat)
    ensures ReplaceBatch(a + b, step, depth) ==
              var first, second := ReplaceBatch(a, step, depth), ReplaceBatch(b, step, depth);
              if !first.Done? then first
              else if !second.Done? then second
              else Done(first.requests + second.requests)
    decreases |a|
  {
    if a == [] {
      assert a + b == b;
    } else {
      assert (a + b)[1..] == a[1..] + b && (a + b)[0] == a[0];
      BatchInTwoParts(a[1..], b, step, depth);
    }
  }

  /** A batch of one subrequest is expanded as that subrequest. */
  lemma BatchOfOne(sub: Subrequest, step: Stepper, depth: nat)
    ensures ReplaceBatch([sub], step, depth) == ReplaceItem(sub, step, depth)
  {
    assert [sub][1..] == [];
    assert ReplaceBatch([], step, depth) == Done([]);
  }

  // --- Subrequests without tokens ---

  /** A subrequest without tokens comes back as it was, marked as resolved. */
  lemma TokenFreeComesBack(sub: Subrequest, pool: seq<Response>, query: JsonQuery, depth: nat)
    requires FindTokens(sub.uri) == [] && FindTokens(sub.body) == []
    ensures var outcome := ReplaceItem(sub, Replacer(pool, query), depth);
            && outcome.Done? && |outcome.requests| == 1
            && var r := outcome.requests[0];
               && r.requestId == sub.requestId && r.uri == sub.uri && r.body == sub.body && r.action == sub.action
               && r.resolved
  {
    TokenFreeGroups(sub.uri, pool, query);
    TokenFreeGroups(sub.body, pool, query);
    StepCases(sub, pool, query);
  }

  ghost predicate KeepsAction(step: Stepper) {
    forall sub, clone :: step(sub).Expand? && clone in step(sub).clones ==> clone.action == sub.action
  }

  lemma {:induction false} BatchKeepsAction(batch: seq<Subrequest>, step: Stepper, depth: nat, action: string)
    requires KeepsAction(step) && forall sub | sub in batch :: sub.action == action
    ensures var r := ReplaceBatch(batch, step, depth); r.Done? ==> forall sub | sub in r.requests ::
               sub.action == action
    decreases depth, 1, |batch|
  {
    if batch != [] {
      ItemKeepsAction(batch[0], step, depth);
      BatchKeepsAction(batch[1..], step, depth, action);
    }
  }

  lemma {:induction false} ItemKeepsAction(sub: Subrequest, step: Stepper, depth: nat)
    requires KeepsAction(step)
    ensures var r := ReplaceItem(sub, step, depth); r.Done? ==> forall x | x in r.requests :: x.action == sub.action
    decreases depth, 0, 0
  {
    match step(sub)
    case Fail(_) =>
    case Finish =>
    case Expand(clones) => if depth > 0 { BatchKeepsAction(clones, step, depth - 1, sub.action); }
  }

  /** Whatever a subrequest is expanded to, nested tokens included, goes on with its action. */
  lemma ExpansionKeepsAction(sub: Subrequest, pool: seq<Response>, query: JsonQuery, depth: nat)
    ensures var r := ReplaceItem(sub, Replacer(pool, query), depth);
            r.Done? ==> forall x | x in r.requests :: x.action == sub.action
  {
    forall sub, clone | StepOf(sub, pool, query).Expand? && clone in StepOf(sub, pool, query).clones
      ensures clone.action == sub.action
    {
      var uri := GroupsFor(sub.uri, pool, query).value;
      if uri != [] {
        ClonesKeepAction(uri, sub, Uri, clone);
      } else {
        ClonesKeepAction(GroupsFor(sub.body, pool, query).value, sub, Body, clone);
      }
    }
    ItemKeepsAction(sub, Replacer(pool, query), depth);
  }

  lemma ClonesKeepAction(groups: seq<TokenValues>, sub: Subrequest, location: Location, clone: Subrequest)
    requires groups != [] && ProperGroups(groups) && clone in ReplaceTokensInLocation(groups, sub, location)
    ensures clone.action == sub.action
  {
    var clones, points := ReplaceTokensInLocation(groups, sub, location), GetPoints(GroupedByToken(groups));
    PointsAreProper(groups);
    var i :| 0 <= i < |clones| && clones[i] == clone;
    CloneAt(sub, location, points, |points|, i);
  }

  // --- Choices ---

  /** One value for each token, by its number. */
  predicate Chooses(groups: seq<TokenValues>, choice: seq<nat>) {
    |choice| == |groups| && forall j | 0 <= j < |groups| :: choice[j] < |groups[j].values|
  }

  function Chosen(groups: seq<TokenValues>, choice: seq<nat>): seq<Replacement>
    requires Chooses(groups, choice)
  {
    seq(|groups|, j requires 0 <= j < |groups| => Replacement(groups[j].token, groups[j].values[choice[j]]))
  }

  /** The place of a choice among all choices. */
  function Place(groups: seq<TokenValues>, choice: seq<nat>): (k: nat)
    requires Chooses(groups, choice)
    ensures k < ValueProduct(groups)
  {
    ProductOfGroups(groups);
    Rank(GroupedByToken(groups), choice)
  }

  /** The first difference between two choices decides. */
  predicate Precedes(a: seq<nat>, b: seq<nat>) {
    a != [] && b != [] && (a[0] < b[0] || (a[0] == b[0] && Precedes(a[1..], b[1..])))
  }

  lemma {:induction false} RankFollowsOrder<T>(groups: seq<seq<T>>, a: seq<nat>, b: seq<nat>)
    requires |a| == |b| == |groups|
    requires forall j | 0 <= j < |groups| :: a[j] < |groups[j]| && b[j] < |groups[j]|
    ensures Precedes(a, b) <==> Rank(groups, a) < Rank(groups, b)
  {
    if groups != [] {
      RankFollowsOrder(groups[1..], a[1..], b[1..]);
      var p := Product(groups[1..]);
      HigherDigit(a[0], b[0], p, Rank(groups[1..], a[1..]), Rank(groups[1..], b[1..]));
    }
  }

  lemma HigherDigit(a: nat, b: nat, p: nat, x: nat, y: nat)
    requires x < p && y < p
    ensures a < b ==> a * p + x < b * p + y
    ensures a > b ==> a * p + x > b * p + y
  {
    if a < b { SignOfMultiple(b - a, p); assert b * p == a * p + (b - a) * p; }
    if a > b { SignOfMultiple(a - b, p); assert a * p == b * p + (a - b) * p; }
  }

  /** Choices stand in lexicographic order: that of the first token changes slowest. */
  lemma PlacesInOrder(groups: seq<TokenValues>, a: seq<nat>, b: seq<nat>)
    requires Chooses(groups, a) && Chooses(groups, b)
    ensures Precedes(a, b) <==> Place(groups, a) < Place(groups, b)
  {
    RankFollowsOrder(GroupedByToken(groups), a, b);
  }

  /** The clone at the place of a choice is made with its values. */
  lemma CloneOfChoice(groups: seq<TokenValues>, sub: Subrequest, location: Location, choice: seq<nat>)
    requires groups != [] && ProperGroups(groups) && Chooses(groups, choice)
    ensures var clones, k := ReplaceTokensInLocation(groups, sub, location), Place(groups, choice);
            && |clones| == ValueProduct(groups) && k < |clones| && ProperPoint(Chosen(groups, choice))
            && clones[k] == CloneFor(sub, location, k, Chosen(groups, choice))
  {
    var lists := GroupedByToken(groups);
    var points, k := GetPoints(lists), Place(groups, choice);
    ProductOfGroups(groups);
    PointsAreTheProduct(lists, k);
    EveryChoiceIsAPoint(lists, choice);
    PointsAreProper(groups);
    var point := PointAt(lists, k);
    assert point == Chosen(groups, choice) by {
      forall j | 0 <= j < |groups| ensures point[j] == Chosen(groups, choice)[j] {
        assert lists[j] == ReplacementsOf(groups[j]);
      }
    }
    assert points[k] in points;
    CloneAt(sub, location, points, |points|, k);
  }

  // --- Texts without nested tokens ---

  lemma {:induction false} UniformBatchAt(batch: seq<Subrequest>, step: Stepper, depth: nat, m: int, i: nat, j: nat)
    requires i < |batch| && j < m && forall sub | sub in batch :: Yields(sub, step, depth, m)
    ensures ReplaceBatch(batch, step, depth).Done? && Yields(batch[i], step, depth, m)
    ensures |ReplaceBatch(batch, step, depth).requests| == |batch| * m && 0 <= i * m + j < |batch| * m
    ensures ReplaceBatch(batch, step, depth).requests[i * m + j] == ReplaceItem(batch[i], step, depth).requests[j]
    decreases |batch|
  {
    UniformBatch(batch, step, depth, m);
    UniformBatch(batch[1..], step, depth, m);
    DigitsBelowProduct(i, |batch|, m, j);
    assert Yields(batch[0], step, depth, m) && batch[i] in batch;
    if i > 0 {
      assert i * m == m + (i - 1) * m;
      UniformBatchAt(batch[1..], step, depth, m, i - 1, j);
    }
  }

  /** The part that a replacement adds to the id: where it was made, and the place of the choice. */
  function Label(location: string, groups: seq<TokenValues>, k: nat): string {
    if groups == [] then "" else "#" + location + "{" + Decimal(k) + "}"
  }

  /** Request number `k` of a finished expansion. */
  ghost predicate ResultAt(outcome: Outcome, k: nat, r: Subrequest) {
    outcome.Done? && k < |outcome.requests| && outcome.requests[k] == r
  }

  lemma NoChoice(groups: seq<TokenValues>, choice: seq<nat>, text: string)
    requires groups == [] && Chooses(groups, choice)
    ensures ValueProduct(groups) == 1 && Place(groups, choice) == 0
    ensures Chosen(groups, choice) == [] && ApplyPoint(Chosen(groups, choice), text) == text
  {
  }

  /** With the URI done, a choice of values for the body yields the request at its place. */
  lemma FlatBodyResult(sub: Subrequest, pool: seq<Response>, query: JsonQuery, depth: nat, body: seq<TokenValues>,
                       choice: seq<nat>)
    requires BraceFreeValues(pool, query) && depth >= 1
    requires FindTokens(sub.uri) == [] && Flat(sub.body) && GroupsFor(sub.body, pool, query) == Ok(body)
    requires Chooses(body, choice)
    ensures Yields(sub, Replacer(pool, query), depth, ValueProduct(body)) && ProperPoint(Chosen(body, choice))
    ensures var k := Place(body, choice);
            ResultAt(ReplaceItem(sub, Replacer(pool, query), depth), k,
                     Subrequest(sub.requestId +
                       Label("body", body, k), sub.uri, ApplyPoint(Chosen(body, choice), sub.body),
                                sub.action, true))
  {
    hide *;
    FlatBodySize(sub, pool, query, depth);
    if body == [] {
      NoBodyResult(sub, pool, query, depth, body, choice);
    } else {
      SomeBodyResult(sub, pool, query, depth, body, choice);
    }
  }

  lemma NoBodyResult(sub: Subrequest, pool: seq<Response>, query: JsonQuery, depth: nat, body: seq<TokenValues>,
                     choice: seq<nat>)
    requires FindTokens(sub.uri) == [] && GroupsFor(sub.body, pool, query) == Ok(body) && body == []
    requires Chooses(body, choice)
    ensures ProperPoint(Chosen(body, choice))
    ensures var k := Place(body, choice);
            ResultAt(ReplaceItem(sub, Replacer(pool, query), depth), k,
                     Subrequest(sub.requestId + Label("body", body, k), sub.uri,
                                ApplyPoint(Chosen(body, choice), sub.body), sub.action, true))
  {
    EmptyProduct(sub.body, pool, query);
    TokenFreeComesBack(sub, pool, query, depth);
    NoChoice(body, choice, sub.body);
    assert sub.requestId + Label("body", body, 0) == sub.requestId;
  }

  lemma SomeBodyResult(sub: Subrequest, pool: seq<Response>, query: JsonQuery, depth: nat, body: seq<TokenValues>,
                       choice: seq<nat>)
    requires BraceFreeValues(pool, query) && depth >= 1
    requires FindTokens(sub.uri) == [] && Flat(sub.body) && GroupsFor(sub.body, pool, query) == Ok(body) && body != []
    requires Chooses(body, choice)
    ensures ProperPoint(Chosen(body, choice))
    ensures var k := Place(body, choice);
            ResultAt(ReplaceItem(sub, Replacer(pool, query), depth), k,
                     Subrequest(sub.requestId + Label("body", body, k), sub.uri,
                                ApplyPoint(Chosen(body, choice), sub.body), sub.action, true))
  {
    hide *;
    var step, k := Replacer(pool, query), Place(body, choice);
    TokenFreeGroups(sub.uri, pool, query);
    BodyStep(sub, pool, query, body);
    CloneOfChoice(body, sub, Body, choice);
    var clones := ReplaceTokensInLocation(body, sub, Body);
    BodyClonesEnd(sub, pool, query, depth - 1, body, clones);
    UniformBatchAt(clones, step, depth - 1, 1, k, 0);
    ExpandedItem(sub, step, depth, clones);
    MemberAt(clones, k);
    TokenFreeComesBack(clones[k], pool, query, depth - 1);
    BodyClone(sub, k, Chosen(body, choice), body);
    ResultFrom(ReplaceItem(sub, step, depth), k * 1 + 0, k, clones[k],
               ReplaceItem(clones[k], step, depth - 1).requests[0]);
  }

  lemma BodyClonesEnd(sub: Subrequest, pool: seq<Response>, query: JsonQuery, depth: nat, body: seq<TokenValues>,
                      clones: seq<Subrequest>)
    requires BraceFreeValues(pool, query) && FindTokens(sub.uri) == [] && Flat(sub.body)
    requires GroupsFor(sub.body, pool, query) == Ok(body) && body != [] && ProperGroups(body)
    requires clones == ReplaceTokensInLocation(body, sub, Body)
    ensures forall clone | clone in clones ::
              && FindTokens(clone.uri) == [] && FindTokens(clone.body) == []
              && Yields(clone, Replacer(pool, query), depth, 1)
  {
    hide *;
    TextOfClone(sub);
    FlatClones(sub, Body, pool, query);
    forall clone | clone in clones
      ensures FindTokens(clone.uri) == [] && FindTokens(clone.body) == []
      ensures Yields(clone, Replacer(pool, query), depth, 1)
    {
      TextOfClone(clone);
      TokenFreeYieldsOne(clone, pool, query, depth);
    }
  }

  lemma MemberAt(clones: seq<Subrequest>, k: nat)
    requires k < |clones|
    ensures clones[k] in clones
  {
  }

  lemma TextOfClone(clone: Subrequest)
    ensures TextAt(clone, Uri) == clone.uri && TextAt(clone, Body) == clone.body
  {
  }

  lemma BodyStep(sub: Subrequest, pool: seq<Response>, query: JsonQuery, body: seq<TokenValues>)
    requires GroupsFor(sub.uri, pool, query) == Ok([]) && GroupsFor(sub.body, pool, query) == Ok(body) && body != []
    ensures ProperGroups(body) && Replacer(pool, query)(sub) == Expand(ReplaceTokensInLocation(body, sub, Body))
  {
  }

  lemma ExpandedItem(sub: Subrequest, step: Stepper, depth: nat, clones: seq<Subrequest>)
    requires step(sub) == Expand(clones) && depth > 0
    ensures ReplaceItem(sub, step, depth) == ReplaceBatch(clones, step, depth - 1)
  {
  }

  lemma BodyClone(sub: Subrequest, k: nat, point: seq<Replacement>, body: seq<TokenValues>)
    requires ProperPoint(point) && body != []
    ensures CloneFor(sub, Body, k, point) ==
              Subrequest(sub.requestId + Label("body", body, k), sub.uri, ApplyPoint(point, sub.body), sub.action,
                         sub.resolved)
  {
  }

  lemma UriClone(sub: Subrequest, k: nat, point: seq<Replacement>, uri: seq<TokenValues>)
    requires ProperPoint(point) && uri != []
    ensures CloneFor(sub, Uri, k, point) ==
              Subrequest(sub.requestId + Label("uri", uri, k), ApplyPoint(point, sub.uri), sub.body, sub.action,
                         sub.resolved)
  {
  }

  /** A result that comes from a clone unchanged. */
  lemma ResultFrom(outcome: Outcome, i: nat, k: nat, clone: Subrequest, r: Subrequest)
    requires outcome.Done? && i == k < |outcome.requests| && outcome.requests[i] == r && r.resolved
    requires r.requestId == clone.requestId && r.uri == clone.uri && r.body == clone.body && r.action == clone.action
    ensures ResultAt(outcome, k, Subrequest(clone.requestId, clone.uri, clone.body, clone.action, true))
  {
  }

  /** What a choice of values for the URI and one for the body make of a subrequest. */
  ghost function Filled(sub: Subrequest, uri: seq<TokenValues>, body: seq<TokenValues>, uriChoice: seq<nat>,
                        bodyChoice: seq<nat>): Subrequest
    requires Chooses(uri, uriChoice) && Chooses(body, bodyChoice)
    requires ProperPoint(Chosen(uri, uriChoice)) && ProperPoint(Chosen(body, bodyChoice))
  {
    Subrequest(sub.requestId + Label("uri", uri, Place(uri, uriChoice)) + Label("body", body, Place(body, bodyChoice)),
               ApplyPoint(Chosen(uri, uriChoice), sub.uri), ApplyPoint(Chosen(body, bodyChoice), sub.body),
               sub.action, true)
  }

  /**
   * Where no token is nested, the requests come in the order of the choices for the URI and, for each of these, in the
   * order of the choices for the body, each filled in as its two choices say.
   */
  lemma FlatExpansionResult(sub: Subrequest, pool: seq<Response>, query: JsonQuery, depth: nat,
                            uri: seq<TokenValues>, body: seq<TokenValues>, uriChoice: seq<nat>, bodyChoice: seq<nat>)
    requires BraceFreeValues(pool, query) && depth >= 2 && Flat(sub.uri) && Flat(sub.body)
    requires GroupsFor(sub.uri, pool, query) == Ok(uri) && GroupsFor(sub.body, pool, query) == Ok(body)
    requires Chooses(uri, uriChoice) && Chooses(body, bodyChoice)
    ensures ProperPoint(Chosen(uri, uriChoice)) && ProperPoint(Chosen(body, bodyChoice))
    ensures var k := Place(uri, uriChoice) * ValueProduct(body) + Place(body, bodyChoice);
            0 <= k && ResultAt(ReplaceItem(sub, Replacer(pool, query), depth), k,
                               Filled(sub, uri, body, uriChoice, bodyChoice))
  {
    hide *;
    if uri == [] {
      EmptyProduct(sub.uri, pool, query);
      NoChoice(uri, uriChoice, sub.uri);
      FlatBodyResult(sub, pool, query, depth, body, bodyChoice);
      FilledWithoutUri(sub, uri, body, uriChoice, bodyChoice);
    } else {
      UriResult(sub, pool, query, depth, uri, body, uriChoice, bodyChoice);
    }
  }

  lemma FilledWithoutUri(sub: Subrequest, uri: seq<TokenValues>, body: seq<TokenValues>, uriChoice: seq<nat>,
                         bodyChoice: seq<nat>)
    requires Chooses(uri, uriChoice) && Chooses(body, bodyChoice) && uri == []
    requires ProperPoint(Chosen(body, bodyChoice))
    ensures ProperPoint(Chosen(uri, uriChoice))
    ensures Filled(sub, uri, body, uriChoice, bodyChoice) ==
              Subrequest(sub.requestId + Label("body", body, Place(body, bodyChoice)), sub.uri,
                         ApplyPoint(Chosen(body, bodyChoice), sub.body), sub.action, true)
  {
    NoChoice(uri, uriChoice, sub.uri);
    assert sub.requestId + Label("uri", uri, 0) == sub.requestId;
  }

  lemma UriResult(sub: Subrequest, pool: seq<Response>, query: JsonQuery, depth: nat,
                  uri: seq<TokenValues>, body: seq<TokenValues>, uriChoice: seq<nat>, bodyChoice: seq<nat>)
    requires BraceFreeValues(pool, query) && depth >= 2 && Flat(sub.uri) && Flat(sub.body) && uri != []
    requires GroupsFor(sub.uri, pool, query) == Ok(uri) && GroupsFor(sub.body, pool, query) == Ok(body)
    requires Chooses(uri, uriChoice) && Chooses(body, bodyChoice)
    ensures ProperPoint(Chosen(uri, uriChoice)) && ProperPoint(Chosen(body, bodyChoice))
    ensures var k := Place(uri, uriChoice) * ValueProduct(body) + Place(body, bodyChoice);
            0 <= k && ResultAt(ReplaceItem(sub, Replacer(pool, query), depth), k,
                               Filled(sub, uri, body, uriChoice, bodyChoice))
  {
    hide *;
    var step, m, i, j := Replacer(pool, query), ValueProduct(body), Place(uri, uriChoice), Place(body, bodyChoice);
    GroupsAreProper(sub.uri, pool, query, uri);
    var clones := UriClonesYield(sub, pool, query, depth - 1, uri, m);
    UriStep(sub, pool, query, uri);
    CloneOfChoice(uri, sub, Uri, uriChoice);
    UriClone(sub, i, Chosen(uri, uriChoice), uri);
    UriCloneFree(sub, pool, query, uri, clones, i);
    UniformBatchAt(clones, step, depth - 1, m, i, j);
    ExpandedItem(sub, step, depth, clones);
    FlatBodyResult(clones[i], pool, query, depth - 1, body, bodyChoice);
    FilledIs(sub, clones[i], uri, body, uriChoice, bodyChoice);
    ResultMoved(ReplaceItem(clones[i], step, depth - 1), j, ReplaceItem(sub, step, depth), i * m + j,
                Filled(sub, uri, body, uriChoice, bodyChoice));
  }

  lemma GroupsAreProper(text: string, pool: seq<Response>, query: JsonQuery, groups: seq<TokenValues>)
    requires GroupsFor(text, pool, query) == Ok(groups)
    ensures ProperGroups(groups)
  {
  }

  lemma UriCloneFree(sub: Subrequest, pool: seq<Response>, query: JsonQuery, uri: seq<TokenValues>,
                     clones: seq<Subrequest>, i: nat)
    requires BraceFreeValues(pool, query) && Flat(sub.uri) && GroupsFor(sub.uri, pool, query) == Ok(uri) && uri != []
    requires ProperGroups(uri) && clones == ReplaceTokensInLocation(uri, sub, Uri) && i < |clones|
    ensures FindTokens(clones[i].uri) == [] && clones[i].body == sub.body
  {
    hide *;
    TextOfClone(sub);
    FlatClones(sub, Uri, pool, query);
    MemberAt(clones, i);
    TextOfClone(clones[i]);
  }

  lemma FilledIs(sub: Subrequest, clone: Subrequest, uri: seq<TokenValues>, body: seq<TokenValues>,
                 uriChoice: seq<nat>, bodyChoice: seq<nat>)
    requires Chooses(uri, uriChoice) && Chooses(body, bodyChoice) && uri != []
    requires ProperPoint(Chosen(uri, uriChoice)) && ProperPoint(Chosen(body, bodyChoice))
    requires clone.requestId == sub.requestId + Label("uri", uri, Place(uri, uriChoice))
    requires clone.uri == ApplyPoint(Chosen(uri, uriChoice), sub.uri)
    requires clone.body == sub.body && clone.action == sub.action
    ensures Filled(sub, uri, body, uriChoice, bodyChoice) ==
              Subrequest(clone.requestId + Label("body", body, Place(body, bodyChoice)), clone.uri,
                         ApplyPoint(Chosen(body, bodyChoice), clone.body), clone.action, true)
  {
  }

  lemma ResultMoved(inner: Outcome, j: nat, outcome: Outcome, k: nat, r: Subrequest)
    requires ResultAt(inner, j, r) && outcome.Done? && k < |outcome.requests|
    requires outcome.requests[k] == inner.requests[j]
    ensures ResultAt(outcome, k, r)
  {
  }

  // --- String values ---

  /** The values of a choice of strings, by token. */
  ghost predicate Assigns(values: map<string, string>, groups: seq<TokenValues>, choice: seq<nat>) {
    && Chooses(groups, choice)
    && (forall t :: t in values <==> Has(groups, t))
    && forall j | 0 <= j < |groups| ::
         groups[j].token in values && groups[j].values[choice[j]] == Text(values[groups[j].token])
  }

  /** A choice of strings is put in place of all tokens of a text at once. */
  lemma ChosenStrings(text: string, pool: seq<Response>, query: JsonQuery, groups: seq<TokenValues>, choice: seq<nat>,
                      values: map<string, string>)
    requires BraceFreeValues(pool, query) && Flat(text) && GroupsFor(text, pool, query) == Ok(groups)
    requires Assigns(values, groups, choice)
    ensures ProperPoint(Chosen(groups, choice)) && ApplyPoint(Chosen(groups, choice), text) == Substitute(values, text)
  {
    var point := Chosen(groups, choice);
    GroupsMatchTokens(text, pool, query);
    GroupsArePlain(text, pool, query);
    ChosenValues(groups, choice, values);
    ChosenOrder(groups, choice, values);
    forall t | t in FindTokens(text) ensures t in values { ExtractedGroups(text, pool, query, t); }
    hide *;
    ApplyPointInOrder(point, values, text);
    FlatTextInAnyOrder(TokensOf(point), values, text);
  }

  lemma ChosenValues(groups: seq<TokenValues>, choice: seq<nat>, values: map<string, string>)
    requires Assigns(values, groups, choice) && PlainGroups(groups) && ProperGroups(groups)
    ensures PlainValues(values) && ProperPoint(Chosen(groups, choice))
    ensures forall r: Replacement | r in Chosen(groups, choice) ::
              IsToken(r.token) && r.value.Text? && r.token in values && values[r.token] == r.value.text
  {
    forall t | t in values ensures IsToken(t) && BraceFree(values[t]) {
      var j := HasIndex(groups, t);
      assert groups[j] in groups && groups[j].values[choice[j]] in groups[j].values;
    }
    forall r: Replacement | r in Chosen(groups, choice)
      ensures IsToken(r.token) && r.value.Text? && r.token in values && values[r.token] == r.value.text
    {
      var j :| 0 <= j < |groups| && Chosen(groups, choice)[j] == r;
      assert groups[j] in groups;
    }
  }

  lemma ChosenOrder(groups: seq<TokenValues>, choice: seq<nat>, values: map<string, string>)
    requires Assigns(values, groups, choice) && DistinctTokens(groups)
    ensures ListsKeys(TokensOf(Chosen(groups, choice)), values)
  {
    var order := TokensOf(Chosen(groups, choice));
    assert forall j | 0 <= j < |groups| :: order[j] == groups[j].token;
    forall i, j | 0 <= i < j < |order| ensures order[i] != order[j] { DistinctByIndex(groups, i, j); }
    forall t ensures t in order <==> t in values {
      if t in order {
        var j :| 0 <= j < |order| && order[j] == t;
        assert groups[j].token in values;
      }
      if t in values { var j := HasIndex(groups, t); assert order[j] == t; }
    }
  }

  lemma {:induction false} DistinctByIndex(groups: seq<TokenValues>, i: nat, j: nat)
    requires DistinctTokens(groups) && i < j < |groups|
    ensures groups[i].token != groups[j].token
  {
    if i == 0 {
      assert groups[j] in groups[1..];
      MemberHas(groups[1..], groups[j]);
    } else {
      DistinctByIndex(groups[1..], i - 1, j - 1);
    }
  }

  /**
   * With strings for all tokens,
     the request of two choices has the URI and the body in which every token is replaced by
   * its value at once, and goes on with the action.
   */
  lemma FlatStringsResult(sub: Subrequest, pool: seq<Response>, query: JsonQuery, depth: nat,
                          uri: seq<TokenValues>, body: seq<TokenValues>, uriChoice: seq<nat>, bodyChoice: seq<nat>,
                          uriValues: map<string, string>, bodyValues: map<string, string>)
    requires BraceFreeValues(pool, query) && depth >= 2 && Flat(sub.uri) && Flat(sub.body)
    requires GroupsFor(sub.uri, pool, query) == Ok(uri) && GroupsFor(sub.body, pool, query) == Ok(body)
    requires Assigns(uriValues, uri, uriChoice) && Assigns(bodyValues, body, bodyChoice)
    ensures var outcome := ReplaceItem(sub, Replacer(pool, query), depth);
            var k := Place(uri, uriChoice) * ValueProduct(body) + Place(body, bodyChoice);
            && outcome.Done? && 0 <= k < |outcome.requests| == ValueProduct(uri) * ValueProduct(body)
            && outcome.requests[k].uri == Substitute(uriValues, sub.uri)
            && outcome.requests[k].body == Substitute(bodyValues, sub.body)
            && outcome.requests[k].action == sub.action && outcome.requests[k].resolved
  {
    FlatExpansionSize(sub, pool, query, depth);
    FlatExpansionResult(sub, pool, query, depth, uri, body, uriChoice, bodyChoice);
    ChosenStrings(sub.uri, pool, query, uri, uriChoice, uriValues);
    ChosenStrings(sub.body, pool, query, body, bodyChoice, bodyValues);
    hide ReplaceItem, Replacer, GroupsFor, Place, ValueProduct, Substitute, ApplyPoint, Chosen, Label, Flat;
  }
}
