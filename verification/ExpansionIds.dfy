/** Which request each generated subrequest came from, and why no two share an id. */
module ExpansionIds {
  import opened Decimals
  import opened JsonPathReplacer
  import opened SubrequestExpansion

  // --- Ids ---

  /** `id` is `base` itself or `base` followed by '#' and more. */
  predicate Extends(id: string, base: string) {
    base <= id && (|id| == |base| || id[|base|] == '#')
  }

  predicate Apart(a: string, b: string) {
    !Extends(a, b) && !Extends(b, a)
  }

  ghost predicate ApartIds(batch: seq<Subrequest>) {
    forall i, j | 0 <= i < j < |batch| :: Apart(batch[i].requestId, batch[j].requestId)
  }

  ghost predicate DistinctRequestIds(batch: seq<Subrequest>) {
    forall i, j | 0 <= i < j < |batch| :: batch[i].requestId != batch[j].requestId
  }

  function CutAtHash(id: string): string {
    if id == "" || id[0] == '#' then "" else [id[0]] + CutAtHash(id[1..])
  }

  lemma CommonExtension(a: string, b: string, id: string)
    requires Extends(id, a) && Extends(id, b)
    ensures !Apart(a, b)
  {
    assert b == id[..|b|] && a == id[..|a|];
    if |a| <= |b| {
      assert a == b[..|a|];
    } else {
      assert b == a[..|b|];
    }
  }

  lemma {:induction false} CutRecovers(id: string, base: string)
    requires Extends(id, base) && '#' !in base
    ensures CutAtHash(id) == base
  {
    if base != "" {
      assert base[0] in base && id[0] == base[0];
      assert '#' !in base[1..];
      CutRecovers(id[1..], base[1..]);
      assert base == [base[0]] + base[1..];
    }
  }

  lemma SuffixesApart(id: string, location: Location, i: nat, j: nat)
    requires i != j
    ensures !Extends(id + CloneSuffix(location, i), id + CloneSuffix(location, j))
  {
    var head := id + ("#" + LocationName(location) + "{");
    var a, b := head + (Decimal(i) + "}"), head + (Decimal(j) + "}");
    assert a == id + CloneSuffix(location, i) && b == id + CloneSuffix(location, j);
    if b <= a {
      var (di, dj) := (Decimal(i), Decimal(j));
      assert a[|head|..] == di + "}" && b[|head|..] == dj + "}" && b[|head|..] <= a[|head|..];
      SamePrefixDigits(di, dj);
      DecimalDigits(i);
      DecimalDigits(j);
      if di == dj { DecimalInjective(i, j); }
    }
  }

  lemma SamePrefixDigits(a: string, b: string)
    requires b + "}" <= a + "}"
    ensures '}' in a || a == b
  {
    var n := |b|;
    assert (b + "}")[n] == (a + "}")[n];
    if n < |a| {
      assert a[n] in a;
    } else {
      assert (a + "}")[..n] == (b + "}")[..n];
    }
  }

  /** Clones carry ids that extend the id of the subrequest they replace, and that stay apart. */
  ghost predicate LabelsClones(step: Stepper) {
    forall sub :: step(sub).Expand? ==>
                    && ApartIds(step(sub).clones)
                    && forall clone | clone in step(sub).clones ::
                         Extends(clone.requestId, sub.requestId) && |clone.requestId| > |sub.requestId|
  }

  lemma ReplacerLabelsClones(pool: seq<Response>, query: JsonQuery)
    ensures LabelsClones(Replacer(pool, query))
  {
    forall sub | StepOf(sub, pool, query).Expand?
      ensures ApartIds(StepOf(sub, pool, query).clones)
      ensures forall clone | clone in StepOf(sub, pool, query).clones ::
                Extends(clone.requestId, sub.requestId) && |clone.requestId| > |sub.requestId|
    {
      var uri := GroupsFor(sub.uri, pool, query).value;
      if uri != [] {
        ClonesAreLabelled(uri, sub, Uri);
      } else {
        ClonesAreLabelled(GroupsFor(sub.body, pool, query).value, sub, Body);
      }
    }
  }

  lemma ClonesAreLabelled(groups: seq<TokenValues>, sub: Subrequest, location: Location)
    requires groups != [] && ProperGroups(groups)
    ensures ApartIds(ReplaceTokensInLocation(groups, sub, location))
    ensures forall clone | clone in ReplaceTokensInLocation(groups, sub, location) ::
              Extends(clone.requestId, sub.requestId) && |clone.requestId| > |sub.requestId|
  {
    var clones, points := ReplaceTokensInLocation(groups, sub, location), GetPoints(GroupedByToken(groups));
    PointsAreProper(groups);
    forall i | 0 <= i < |clones| ensures clones[i].requestId == sub.requestId + CloneSuffix(location, i) {
      CloneAt(sub, location, points, |points|, i);
    }
    forall i, j | 0 <= i < j < |clones| ensures Apart(clones[i].requestId, clones[j].requestId) {
      SuffixesApart(sub.requestId, location, i, j);
      SuffixesApart(sub.requestId, location, j, i);
    }
  }

  ghost predicate AllExtend(requests: seq<Subrequest>, base: string) {
    forall r | r in requests :: Extends(r.requestId, base)
  }

  lemma {:induction false} BatchIds(batch: seq<Subrequest>, step: Stepper, depth: nat)
    requires LabelsClones(step) && ApartIds(batch) && ReplaceBatch(batch, step, depth).Done?
    ensures DistinctRequestIds(ReplaceBatch(batch, step, depth).requests)
    ensures forall r | r in ReplaceBatch(batch, step, depth).requests ::
              exists i :: 0 <= i < |batch| && Extends(r.requestId, batch[i].requestId)
    decreases depth, 1, |batch|
  {
    if batch != [] {
      var head, tail := ReplaceItem(batch[0], step, depth).requests, ReplaceBatch(batch[1..], step, depth).requests;
      ItemIds(batch[0], step, depth);
      BatchIds(batch[1..], step, depth);
      forall r | r in tail ensures exists i :: 1 <= i < |batch| && Extends(r.requestId, batch[i].requestId) {
        var i :| 0 <= i < |batch[1..]| && Extends(r.requestId, batch[1..][i].requestId);
        assert batch[1..][i] == batch[i + 1];
      }
      forall x, y | x in head && y in tail ensures x.requestId != y.requestId {
        var i :| 1 <= i < |batch| && Extends(y.requestId, batch[i].requestId);
        if x.requestId == y.requestId {
          CommonExtension(batch[0].requestId, batch[i].requestId, x.requestId);
        }
      }
      DistinctConcat(head, tail);
      forall r | r in head + tail ensures exists i :: 0 <= i < |batch| && Extends(r.requestId, batch[i].requestId) {
        if r in head { assert Extends(r.requestId, batch[0].requestId); }
      }
    }
  }

  lemma DistinctConcat(a: seq<Subrequest>, b: seq<Subrequest>)
    requires DistinctRequestIds(a) && DistinctRequestIds(b)
    requires forall x, y | x in a && y in b :: x.requestId != y.requestId
    ensures DistinctRequestIds(a + b)
  {
    forall i, j | 0 <= i < j < |a + b| ensures (a + b)[i].requestId != (a + b)[j].requestId {
      if i < |a| <= j { assert a[i] in a && b[j - |a|] in b; }
    }
  }

  lemma {:induction false} ItemIds(sub: Subrequest, step: Stepper, depth: nat)
    requires LabelsClones(step) && ReplaceItem(sub, step, depth).Done?
    ensures DistinctRequestIds(ReplaceItem(sub, step, depth).requests)
    ensures AllExtend(ReplaceItem(sub, step, depth).requests, sub.requestId)
    decreases depth, 0, 0
  {
    match step(sub)
    case Fail(_) =>
    case Finish =>
    case Expand(clones) =>
      BatchIds(clones, step, depth - 1);
      var out := ReplaceBatch(clones, step, depth - 1).requests;
      forall r | r in out ensures Extends(r.requestId, sub.requestId) {
        var i :| 0 <= i < |clones| && Extends(r.requestId, clones[i].requestId);
        assert clones[i] in clones;
        ExtendsTransitive(r.requestId, clones[i].requestId, sub.requestId);
      }
  }

  lemma ExtendsTransitive(a: string, b: string, c: string)
    requires Extends(a, b) && Extends(b, c) && |b| > |c|
    ensures Extends(a, c)
  {
    assert c == b[..|c|] == a[..|c|];
    assert a[|c|] == b[|c|];
  }

  /** Distinct ids without '#' stay distinct through the whole expansion. */
  lemma ExpansionKeepsIdsDistinct(batch: seq<Subrequest>, pool: seq<Response>, query: JsonQuery, depth: nat)
    requires DistinctRequestIds(batch) && forall sub | sub in batch :: '#' !in sub.requestId
    requires ReplaceBatch(batch, Replacer(pool, query), depth).Done?
    ensures DistinctRequestIds(ReplaceBatch(batch, Replacer(pool, query), depth).requests)
  {
    HashFreeApartBatch(batch);
    ReplacerLabelsClones(pool, query);
    BatchIds(batch, Replacer(pool, query), depth);
  }

  lemma HashFreeApartBatch(batch: seq<Subrequest>)
    requires DistinctRequestIds(batch) && forall sub | sub in batch :: '#' !in sub.requestId
    ensures ApartIds(batch)
  {
    forall i, j | 0 <= i < j < |batch| ensures Apart(batch[i].requestId, batch[j].requestId) {
      assert batch[i] in batch && batch[j] in batch;
      HashFreeApart(batch[i].requestId, batch[j].requestId);
      HashFreeApart(batch[j].requestId, batch[i].requestId);
    }
  }

  lemma HashFreeApart(a: string, b: string)
    requires a != b && '#' !in a
    ensures !Extends(a, b)
  {
    if b <= a && |b| < |a| {
      assert a[|b|] in a;
    }
  }

  /** The id up to the first '#' names the request that a generated subrequest came from. */
  lemma GeneratedIdNamesItsOrigin(sub: Subrequest, pool: seq<Response>, query: JsonQuery, depth: nat, r: Subrequest)
    requires '#' !in sub.requestId
    requires ReplaceItem(sub, Replacer(pool, query), depth).Done?
    requires r in ReplaceItem(sub, Replacer(pool, query), depth).requests
    ensures CutAtHash(r.requestId) == sub.requestId
  {
    ReplacerLabelsClones(pool, query);
    ItemIds(sub, Replacer(pool, query), depth);
    CutRecovers(r.requestId, sub.requestId);
  }

  // --- Whose responses a token reads ---

  /** The responses that belong to a request: those of the request itself and of the subrequests generated from it. */
  function ResponsesOf(pool: seq<Response>, id: string): seq<Response> {
    if pool == [] then []
    else (if CutAtHash(pool[0].contentId) == id then [pool[0]] else []) + ResponsesOf(pool[1..], id)
  }

  lemma {:induction false} CutIsPrefix(id: string)
    ensures CutAtHash(id) <= id
  {
    if id != "" && id[0] != '#' { CutIsPrefix(id[1..]); }
  }

  lemma {:induction false} SubjectsCount(pool: seq<Response>, id: string)
    ensures |ResponsesOf(pool, id)| <= |Subjects(pool, id)|
    ensures |ResponsesOf(pool, id)| == |Subjects(pool, id)| ==>
              forall r | r in pool && CutAtHash(r.contentId) != id :: !Contains(r.contentId, id)
    ensures (forall r | r in pool && CutAtHash(r.contentId) != id :: !Contains(r.contentId, id)) ==>
              Subjects(pool, id) == ResponsesOf(pool, id)
  {
    if pool != [] {
      CutIsPrefix(pool[0].contentId);
      SubjectsCount(pool[1..], id);
      assert pool == [pool[0]] + pool[1..];
    }
  }

  /**
   * A token reads exactly the responses of the request that it names if and only if the id of that request is part of
   * the id of no other response.
   */
  lemma SubjectsAreNamedIff(pool: seq<Response>, id: string)
    ensures Subjects(pool, id) == ResponsesOf(pool, id) <==>
              forall r | r in pool && CutAtHash(r.contentId) != id :: !Contains(r.contentId, id)
  {
    SubjectsCount(pool, id);
  }

  /** The id `uri` is part of every id generated for a URI, so a token that names it reads those responses too. */
  lemma UriReadsOthers(content: string)
    ensures var pool := [Response("foo#uri{0}", content)];
            Subjects(pool, "uri") == pool && ResponsesOf(pool, "uri") == [] && CutAtHash("foo#uri{0}") == "foo"
  {
    var id := "foo#uri{0}";
    CutRecovers(id, "foo");
    ContainsLater(id, "uri", 4);
    var pool := [Response(id, content)];
    assert pool[1..] == [];
  }

  lemma {:induction false} ContainsLater(s: string, part: string, i: nat)
    requires i <= |s| && part <= s[i..]
    ensures Contains(s, part)
    decreases i
  {
    if i > 0 {
      assert s[1..][i - 1..] == s[i..];
      ContainsLater(s[1..], part, i - 1);
    } else {
      assert s[0..] == s;
    }
  }

  /** A batch with ids free of '#': the generated ids differ, and each names a request of the batch. */
  lemma ExpansionNamesRequests(batch: seq<Subrequest>, pool: seq<Response>, query: JsonQuery, depth: nat)
    requires DistinctRequestIds(batch) && forall sub | sub in batch :: '#' !in sub.requestId
    requires ReplaceBatch(batch, Replacer(pool, query), depth).Done?
    ensures DistinctRequestIds(ReplaceBatch(batch, Replacer(pool, query), depth).requests)
    ensures forall r | r in ReplaceBatch(batch, Replacer(pool, query), depth).requests ::
              exists i :: 0 <= i < |batch| && CutAtHash(r.requestId) == batch[i].requestId
  {
    ExpansionKeepsIdsDistinct(batch, pool, query, depth);
    HashFreeApartBatch(batch);
    ReplacerLabelsClones(pool, query);
    BatchIds(batch, Replacer(pool, query), depth);
    forall r | r in ReplaceBatch(batch, Replacer(pool, query), depth).requests
      ensures exists i :: 0 <= i < |batch| && CutAtHash(r.requestId) == batch[i].requestId
    {
      var i :| 0 <= i < |batch| && Extends(r.requestId, batch[i].requestId);
      assert batch[i] in batch;
      CutRecovers(r.requestId, batch[i].requestId);
    }
  }
}
