/** The mutual recursion that expands a batch until no token is left, and what it guarantees. */
module SubrequestExpansion {
  import opened Wrappers
  import opened TokenText
  import opened Substitution
  import opened JsonPathReplacer
  import opened ReplacementPoints

  /** `Unfinished` stands for a recursion that goes deeper than allowed. */
  datatype Outcome = Done(requests: seq<Subrequest>) | Rejected(error: Error) | Unfinished

  /** The replacements for one text, grouped by token. */
  function GroupsFor(text: string, pool: seq<Response>, query: JsonQuery): (r: Result<seq<TokenValues>, Error>)
    ensures r.Ok? ==> ProperGroups(r.value) && (r.value == [] <==> FindTokens(text) == [])
  {
    match ExtractTokenReplacements(text, pool, query)
    case Err(e) => Err(e)
    case Ok(table) => GroupsMatchTokens(text, pool, query); Ok(Flatten(table))
  }

  lemma GroupsMatchTokens(text: string, pool: seq<Response>, query: JsonQuery)
    requires ExtractTokenReplacements(text, pool, query).Ok?
    ensures var groups := Flatten(ExtractTokenReplacements(text, pool, query).value);
            && DistinctTokens(groups) && ProperGroups(groups) && (groups == [] <==> FindTokens(text) == [])
            && forall g :: g in groups ==> g.token in FindTokens(text)
  {
    var groups := Flatten(ExtractTokenReplacements(text, pool, query).value);
    ExtractedGroups(text, pool, query, "");
    forall g | g in groups ensures g.token in FindTokens(text) {
      MemberHas(groups, g);
      ExtractedGroups(text, pool, query, g.token);
    }
    if FindTokens(text) != [] {
      ExtractedGroups(text, pool, query, FindTokens(text)[0]);
    }
    assert groups != [] ==> Has(groups, groups[0].token);
    if groups != [] {
      ExtractedGroups(text, pool, query, groups[0].token);
    }
  }

  lemma {:induction false} MemberHas(groups: seq<TokenValues>, g: TokenValues)
    requires g in groups
    ensures Has(groups, g.token)
  {
    if groups[0] != g { MemberHas(groups[1..], g); }
  }

  /** What happens to a subrequest: an error, nothing more to do, or replacement by clones. */
  datatype Step = Fail(error: Error) | Finish | Expand(clones: seq<Subrequest>)

  /** Both members are searched first; URI tokens are replaced before body tokens. */
  function StepOf(sub: Subrequest, pool: seq<Response>, query: JsonQuery): Step {
    var uri := GroupsFor(sub.uri, pool, query);
    if uri.Err? then Fail(uri.error)
    else
      var body := GroupsFor(sub.body, pool, query);
      if body.Err? then Fail(body.error)
      else if uri.value != [] then Expand(ReplaceTokensInLocation(uri.value, sub, Uri))
      else if body.value != [] then Expand(ReplaceTokensInLocation(body.value, sub, Body))
      else Finish
  }

  /** The recursion only looks at subrequests through the step function. */
  type Stepper = Subrequest -> Step

  function Replacer(pool: seq<Response>, query: JsonQuery): Stepper {
    sub => StepOf(sub, pool, query)
  }

  function ReplaceBatch(batch: seq<Subrequest>, step: Stepper, depth: nat): Outcome
    decreases depth, 1, |batch|
  {
    if batch == [] then Done([])
    else
      var head := ReplaceItem(batch[0], step, depth);
      if !head.Done? then head
      else
        var tail := ReplaceBatch(batch[1..], step, depth);
        if !tail.Done? then tail else Done(head.requests + tail.requests)
  }

  function ReplaceItem(sub: Subrequest, step: Stepper, depth: nat): Outcome
    decreases depth, 0, 0
  {
    match step(sub)
    case Fail(e) => Rejected(e)
    case Finish => Done([sub.(resolved := true)])
    case Expand(clones) => if depth == 0 then Unfinished else ReplaceBatch(clones, step, depth - 1)
  }

  // --- No token is left ---

  predicate Resolved(sub: Subrequest) {
    sub.resolved && FindTokens(sub.uri) == [] && FindTokens(sub.body) == []
  }

  ghost predicate FinishesOnlyTokenFree(step: Stepper) {
    forall sub :: step(sub).Finish? ==> FindTokens(sub.uri) == [] && FindTokens(sub.body) == []
  }

  lemma {:induction false} BatchIsResolved(batch: seq<Subrequest>, step: Stepper, depth: nat)
    requires FinishesOnlyTokenFree(step)
    ensures ReplaceBatch(batch, step, depth).Done? ==>
              forall r :: r in ReplaceBatch(batch, step, depth).requests ==> Resolved(r)
    decreases depth, 1, |batch|
  {
    if batch != [] {
      ItemIsResolved(batch[0], step, depth);
      BatchIsResolved(batch[1..], step, depth);
    }
  }

  lemma {:induction false} ItemIsResolved(sub: Subrequest, step: Stepper, depth: nat)
    requires FinishesOnlyTokenFree(step)
    ensures ReplaceItem(sub, step, depth).Done? ==>
              forall r :: r in ReplaceItem(sub, step, depth).requests ==> Resolved(r)
    decreases depth, 0, 0
  {
    match step(sub)
    case Fail(_) =>
    case Finish =>
    case Expand(clones) => if depth > 0 { BatchIsResolved(clones, step, depth - 1); }
  }

  /** Every subrequest of a finished expansion is marked resolved and holds no token. */
  lemma ExpansionIsResolved(batch: seq<Subrequest>, pool: seq<Response>, query: JsonQuery, depth: nat)
    ensures var r := ReplaceBatch(batch, Replacer(pool, query), depth);
            r.Done? ==> forall sub | sub in r.requests :: Resolved(sub)
  {
    forall sub | StepOf(sub, pool, query).Finish? ensures FindTokens(sub.uri) == [] && FindTokens(sub.body) == [] {
    }
    BatchIsResolved(batch, Replacer(pool, query), depth);
  }

  // --- Termination ---

  /** No value that the query finds in a response of the pool holds a brace. */
  ghost predicate BraceFreeValues(pool: seq<Response>, query: JsonQuery) {
    forall r, path, v :: r in pool && v in query(r.content, path) && v.Leaf? ==> BraceFree(v.value.text)
  }

  function Weight(sub: Subrequest): nat {
    Braces(sub.uri) + Braces(sub.body)
  }

  lemma {:induction false} FoundIsBraceFree(subjects: seq<Response>, path: string, query: JsonQuery)
    requires BraceFreeValues(subjects, query)
    ensures forall v | v in FoundIn(subjects, path, query) :: BraceFree(v.text)
  {
    if subjects != [] {
      FoundIsBraceFree(subjects[1..], path, query);
      var found := query(subjects[0].content, path);
      if Structured !in found {
        forall v | v in Leaves(found) ensures BraceFree(v.text) {
          assert Leaf(v) in found;
        }
      }
    }
  }

  lemma {:induction false} SubjectsInPool(pool: seq<Response>, id: string)
    ensures forall r | r in Subjects(pool, id) :: r in pool
  {
    if pool != [] { SubjectsInPool(pool[1..], id); }
  }

  lemma {:induction false} MemberLookup(groups: seq<TokenValues>, g: TokenValues)
    requires g in groups && DistinctTokens(groups)
    ensures Lookup(groups, g.token) == g.values
  {
    if groups[0] != g {
      MemberHas(groups[1..], g);
      MemberLookup(groups[1..], g);
    }
  }

  ghost predicate PlainGroups(groups: seq<TokenValues>) {
    forall g, v | g in groups && v in g.values :: BraceFree(v.text)
  }

  lemma GroupsArePlain(text: string, pool: seq<Response>, query: JsonQuery)
    requires BraceFreeValues(pool, query) && GroupsFor(text, pool, query).Ok?
    ensures PlainGroups(GroupsFor(text, pool, query).value)
  {
    var groups := GroupsFor(text, pool, query).value;
    GroupsMatchTokens(text, pool, query);
    forall g, v | g in groups && v in g.values ensures BraceFree(v.text) {
      ExtractedGroups(text, pool, query, g.token);
      MemberLookup(groups, g);
      SubjectsInPool(pool, IdOf(g.token));
      FoundIsBraceFree(Subjects(pool, IdOf(g.token)), SplitToken(g.token).1, query);
    }
  }

  /** Replacing the tokens of a point, of which the first occurs in the text, loses braces. */
  lemma {:induction false} ApplyPointLoses(point: seq<Replacement>, s: string)
    requires PlainPoint(point) && point != [] && Count(point[0].token, s) >= 1
    ensures Braces(ApplyPoint(point, s)) < Braces(s)
  {
    var n := |point| - 1;
    assert point[n] in point;
    if n == 0 {
      assert ApplyPoint(point[..0], s) == s;
    } else {
      ApplyPointLoses(point[..n], s);
    }
    ReplaceTokenWeight(point[n].token, point[n].value, ApplyPoint(point[..n], s));
  }

  /** Each clone holds fewer braces than the subrequest it replaces. */
  lemma ClonesAreLighter(sub: Subrequest, pool: seq<Response>, query: JsonQuery, clone: Subrequest)
    requires BraceFreeValues(pool, query) && StepOf(sub, pool, query).Expand?
    requires clone in StepOf(sub, pool, query).clones
    ensures Weight(clone) < Weight(sub)
  {
    var uri := GroupsFor(sub.uri, pool, query).value;
    LocationClonesAreLighter(sub, if uri != [] then Uri else Body, pool, query, clone);
  }

  lemma LocationClonesAreLighter(sub: Subrequest, location: Location, pool: seq<Response>, query: JsonQuery,
                                 clone: Subrequest)
    requires BraceFreeValues(pool, query) && GroupsFor(TextAt(sub, location), pool, query).Ok?
    requires var groups := GroupsFor(TextAt(sub, location), pool, query).value;
             groups != [] && clone in ReplaceTokensInLocation(groups, sub, location)
    ensures Weight(clone) < Weight(sub)
  {
    var text := TextAt(sub, location);
    var groups := GroupsFor(text, pool, query).value;
    var points := GetPoints(GroupedByToken(groups));
    PointsAreProper(groups);
    var i :| 0 <= i < |points| && Clones(sub, location, points, |points|)[i] == clone;
    CloneAt(sub, location, points, |points|, i);
    PointTokens(groups, points[i]);
    PointIsPlain(text, pool, query, points[i]);
    GroupsMatchTokens(text, pool, query);
    assert groups[0] in groups;
    FoundTokenCounts(text, groups[0].token);
    ApplyPointLoses(points[i], text);
  }

  lemma PointIsPlain(text: string, pool: seq<Response>, query: JsonQuery, point: seq<Replacement>)
    requires BraceFreeValues(pool, query) && GroupsFor(text, pool, query).Ok?
    requires var groups := GroupsFor(text, pool, query).value;
             groups != [] && point in GetPoints(GroupedByToken(groups))
    ensures PlainPoint(point)
  {
    var groups := GroupsFor(text, pool, query).value;
    PointTokens(groups, point);
    GroupsArePlain(text, pool, query);
    forall r | r in point ensures IsToken(r.token) && BraceFree(r.value.text) {
      var j :| 0 <= j < |point| && point[j] == r;
      assert groups[j] in groups;
    }
  }

  ghost predicate LosesWeight(step: Stepper) {
    && (forall sub :: step(sub).Expand? ==> Weight(sub) > 0)
    && (forall sub, clone :: step(sub).Expand? && clone in step(sub).clones ==> Weight(clone) < Weight(sub))
  }

  lemma {:induction false} ItemTerminates(sub: Subrequest, step: Stepper, depth: nat)
    requires LosesWeight(step) && Weight(sub) <= depth
    ensures !ReplaceItem(sub, step, depth).Unfinished?
    decreases depth, 0, 0
  {
    match step(sub)
    case Fail(_) =>
    case Finish =>
    case Expand(clones) => BatchTerminates(clones, step, depth - 1);
  }

  lemma {:induction false} BatchTerminates(batch: seq<Subrequest>, step: Stepper, depth: nat)
    requires LosesWeight(step) && forall sub | sub in batch :: Weight(sub) <= depth
    ensures !ReplaceBatch(batch, step, depth).Unfinished?
    decreases depth, 1, |batch|
  {
    if batch != [] {
      assert batch[0] in batch;
      ItemTerminates(batch[0], step, depth);
      BatchTerminates(batch[1..], step, depth);
    }
  }

  lemma WeightlessHasNoTokens(sub: Subrequest)
    requires Weight(sub) == 0
    ensures FindTokens(sub.uri) == [] && FindTokens(sub.body) == []
  {
    BraceFreeHasNoTokens(sub.uri);
    BraceFreeHasNoTokens(sub.body);
  }

  lemma {:induction false} BraceFreeHasNoTokens(s: string)
    requires Braces(s) == 0
    ensures FindTokens(s) == []
    decreases |s|
  {
    BraceFreeBraces(s);
    if s != "" {
      assert s[0] in s;
      BraceFreeHasNoTokens(s[1..]);
    }
  }

  /**
   * With brace-free values the expansion ends, however deeply tokens are nested: its depth is at most the
   * number of braces in a URI and body.
   */
  lemma ExpansionTerminates(batch: seq<Subrequest>, pool: seq<Response>, query: JsonQuery, depth: nat)
    requires BraceFreeValues(pool, query) && forall sub | sub in batch :: Weight(sub) <= depth
    ensures !ReplaceBatch(batch, Replacer(pool, query), depth).Unfinished?
  {
    var step := Replacer(pool, query);
    forall sub, clone | step(sub).Expand? && clone in step(sub).clones ensures Weight(clone) < Weight(sub) {
      ClonesAreLighter(sub, pool, query, clone);
    }
    forall sub | step(sub).Expand? ensures Weight(sub) > 0 {
      if Weight(sub) == 0 { WeightlessHasNoTokens(sub); }
    }
    BatchTerminates(batch, step, depth);
  }

  /** A finished expansion does not depend on the depth that was allowed. */
  lemma {:induction false} BatchDepthIrrelevant(batch: seq<Subrequest>, step: Stepper, d: nat, e: nat)
    requires d <= e && !ReplaceBatch(batch, step, d).Unfinished?
    ensures ReplaceBatch(batch, step, e) == ReplaceBatch(batch, step, d)
    decreases d, 1, |batch|
  {
    if batch != [] {
      ItemDepthIrrelevant(batch[0], step, d, e);
      if ReplaceItem(batch[0], step, d).Done? {
        BatchDepthIrrelevant(batch[1..], step, d, e);
      }
    }
  }

  lemma {:induction false} ItemDepthIrrelevant(sub: Subrequest, step: Stepper, d: nat, e: nat)
    requires d <= e && !ReplaceItem(sub, step, d).Unfinished?
    ensures ReplaceItem(sub, step, e) == ReplaceItem(sub, step, d)
    decreases d, 0, 0
  {
    match step(sub)
    case Fail(_) =>
    case Finish =>
    case Expand(clones) => BatchDepthIrrelevant(clones, step, d - 1, e - 1);
  }

  /** Subrequests with this URI and body are always replaced, first of all by one of the same kind. */
  ghost predicate Reproduces(step: Stepper, uri: string, body: string) {
    forall sub: Subrequest :: sub.uri == uri && sub.body == body ==>
                    && step(sub).Expand? && step(sub).clones != []
                    && step(sub).clones[0].uri == uri && step(sub).clones[0].body == body
  }

  lemma {:induction false} ReproductionNeverEnds(sub: Subrequest, step: Stepper, depth: nat)
    requires Reproduces(step, sub.uri, sub.body)
    ensures ReplaceItem(sub, step, depth).Unfinished?
    decreases depth
  {
    if depth > 0 {
      ReproductionNeverEnds(step(sub).clones[0], step, depth - 1);
    }
  }

  /**
   * The restriction to brace-free values is needed: a token whose value is the token itself is expanded
   * for ever, whatever depth is allowed.
   */
  lemma SelfReferenceNeverEnds(t: string, id: string, action: string, depth: nat)
    requires IsToken(t)
    ensures var pool, query := [Response(IdOf(t), "")], (content: string, path: string) => [Leaf(Text(t))];
            ReplaceItem(Subrequest(id, t, "", action, false), Replacer(pool, query), depth).Unfinished?
  {
    var pool, query := [Response(IdOf(t), "")], (content: string, path: string) => [Leaf(Text(t))];
    forall sub: Subrequest | sub.uri == t && sub.body == ""
      ensures StepOf(sub, pool, query) == Expand([CloneFor(sub, Uri, 0, [Replacement(t, Text(t))])])
      ensures CloneFor(sub, Uri, 0, [Replacement(t, Text(t))]).uri == t
    {
      SelfReferenceStep(sub, pool, query);
    }
    ReproductionNeverEnds(Subrequest(id, t, "", action, false), Replacer(pool, query), depth);
  }

  lemma SelfReferenceStep(sub: Subrequest, pool: seq<Response>, query: JsonQuery)
    requires IsToken(sub.uri) && sub.body == "" && pool == [Response(IdOf(sub.uri), "")]
    requires forall content, path :: query(content, path) == [Leaf(Text(sub.uri))]
    ensures StepOf(sub, pool, query) == Expand([CloneFor(sub, Uri, 0, [Replacement(sub.uri, Text(sub.uri))])])
    ensures CloneFor(sub, Uri, 0, [Replacement(sub.uri, Text(sub.uri))]).uri == sub.uri
  {
    var t := sub.uri;
    SelfReferenceGroups(t, pool, query);
    OneClone(sub, t, Text(t));
    assert t[|t|..] == "";
    assert ReplaceAll(t, t, t) == t + ReplaceAll("", t, t);
  }

  lemma SelfReferenceGroups(t: string, pool: seq<Response>, query: JsonQuery)
    requires IsToken(t) && pool == [Response(IdOf(t), "")]
    requires forall content, path :: query(content, path) == [Leaf(Text(t))]
    ensures GroupsFor(t, pool, query) == Ok([TokenValues(t, [Text(t)])])
    ensures GroupsFor("", pool, query) == Ok([])
  {
    var id, tokens: seq<string> := IdOf(t), [t];
    var found := [Leaf(Text(t))];
    var table := [IdGroup(id, [TokenValues(t, [Text(t)])])];
    OneToken(t);
    assert Contains(id, id) && Subjects(pool, id) == pool by { assert pool[1..] == []; }
    assert Leaves(found) == [Text(t)];
    assert AddReplacements([], id, t, [Text(t)]) == table;
    assert AddSubjects([], t, pool, query) == AddSubjects(table, t, pool[1..], query) == Ok(table);
    assert CollectReplacements(tokens, pool, query, []) == CollectReplacements(tokens[1..], pool, query, table) ==
           Ok(table);
    assert Flatten(table) == [TokenValues(t, [Text(t)])];
  }

  lemma OneToken(t: string)
    requires IsToken(t)
    ensures FindTokens(t) == [t] && Dedupe([t]) == [t]
  {
    TokenIsScanned(t, t);
    assert t[..|t|] == t && t[|t|..] == "";
    assert FindTokens(t) == [t] + FindTokens("");
    var tokens: seq<string> := [t];
    assert tokens[..0] == [];
  }

  lemma OneClone(sub: Subrequest, t: string, v: Value)
    requires IsToken(t)
    ensures ProperPoint([Replacement(t, v)])
    ensures ReplaceTokensInLocation([TokenValues(t, [v])], sub, Uri) == [CloneFor(sub, Uri, 0, [Replacement(t, v)])]
    ensures CloneFor(sub, Uri, 0, [Replacement(t, v)]).uri == ReplaceToken(t, v, sub.uri)
  {
    var point := [Replacement(t, v)];
    var none: seq<Replacement> := [];
    var groups := [TokenValues(t, [v])];
    assert ReplacementsOf(groups[0]) == point;
    assert GroupedByToken(groups) == [point];
    assert GetPoints([point]) == [point];
    assert point[..0] == none;
    assert ApplyPoint(point, sub.uri) == ReplaceToken(t, v, ApplyPoint(none, sub.uri));
    assert Clones(sub, Uri, [point], 1) == Clones(sub, Uri, [point], 0) + [CloneFor(sub, Uri, 0, point)];
  }
}
