/** Expansion of subrequests whose URI or body refers to earlier responses. */
module JsonPathReplacer {
  import opened Decimals
  import opened Wrappers
  import opened TokenText

  /** A value found by a JSONPath query: a string, or a number or boolean in its JSON spelling. */
  datatype Found = Text(text: string) | Scalar(text: string)

  /** The spelling of a number or boolean is never empty. */
  type Value = v: Found | v.Scalar? ==> v.text != "" witness Text("")

  datatype JsonValue = Leaf(value: Value) | Structured

  datatype Response = Response(contentId: string, content: string)

  /** The body is kept in its serialized form; `action` stands for the members that expansion copies. */
  datatype Subrequest = Subrequest(requestId: string, uri: string, body: string, action: string, resolved: bool)

  datatype Location = Uri | Body

  datatype Error = UnknownRequest(id: string) | InvalidReplacement

  datatype TokenValues = TokenValues(token: string, values: seq<Value>)

  /** The tokens that refer to one request id, in the order in which they were first met. */
  datatype IdGroup = IdGroup(id: string, tokens: seq<TokenValues>)

  datatype Replacement = Replacement(token: string, value: Value)

  type JsonQuery = (string, string) -> seq<JsonValue>

  // --- Finding replacements ---

  /** The index of the last '@' that is followed by something. */
  function LastAt(b: string, n: nat): (q: nat)
    requires n < |b|
    ensures q <= n
  {
    if n == 0 || b[n] == '@' then n else LastAt(b, n - 1)
  }

  /** The subject and the JSONPath of a token. */
  function SplitToken(t: string): (parts: (string, string))
    requires IsToken(t)
  {
    TokenShape(t);
    var b := t[2..|t| - 2];
    var q := LastAt(b, |b| - 2);
    (b[..q], b[q + 1..])
  }

  const BODY_SUFFIX := ".body"

  function ProvidedId(subject: string): string {
    var n := |BODY_SUFFIX|;
    if |subject| >= n && subject[|subject| - n..] == BODY_SUFFIX then subject[..|subject| - n] else subject
  }

  function IdOf(t: string): string
    requires IsToken(t)
  {
    ProvidedId(SplitToken(t).0)
  }

  predicate Contains(s: string, part: string) {
    part <= s || (s != "" && Contains(s[1..], part))
  }

  function Subjects(pool: seq<Response>, id: string): seq<Response> {
    if pool == [] then []
    else (if Contains(pool[0].contentId, id) then [pool[0]] else []) + Subjects(pool[1..], id)
  }

  /** The tokens without repetitions, each at its first position. */
  function Dedupe(tokens: seq<string>): (r: seq<string>)
    ensures forall t :: t in r <==> t in tokens
    ensures forall i, j | 0 <= i < j < |r| :: r[i] != r[j]
  {
    if tokens == [] then []
    else
      var n := |tokens| - 1;
      var r := Dedupe(tokens[..n]);
      if tokens[n] in r then r else r + [tokens[n]]
  }

  function Leaves(found: seq<JsonValue>): (r: seq<Value>)
    requires Structured !in found
    ensures |r| == |found| && forall i | 0 <= i < |r| :: found[i] == Leaf(r[i])
  {
    if found == [] then []
    else
      assert found[0] in found;
      [found[0].value] + Leaves(found[1..])
  }

  function AddToken(tokens: seq<TokenValues>, token: string, values: seq<Value>): seq<TokenValues> {
    if tokens == [] then [TokenValues(token, values)]
    else if tokens[0].token == token then [TokenValues(token, tokens[0].values + values)] + tokens[1..]
    else [tokens[0]] + AddToken(tokens[1..], token, values)
  }

  function AddReplacements(table: seq<IdGroup>, id: string, token: string, values: seq<Value>): seq<IdGroup> {
    if table == [] then [IdGroup(id, [TokenValues(token, values)])]
    else if table[0].id == id then [IdGroup(id, AddToken(table[0].tokens, token, values))] + table[1..]
    else [table[0]] + AddReplacements(table[1..], id, token, values)
  }

  /** Adds what one token finds in each of its subjects. */
  function AddSubjects(table: seq<IdGroup>, token: string, subjects: seq<Response>,
                       query: JsonQuery): Result<seq<IdGroup>, Error>
    requires IsToken(token)
    decreases |subjects|
  {
    if subjects == [] then Ok(table)
    else
      var found := query(subjects[0].content, SplitToken(token).1);
      if Structured in found then Err(InvalidReplacement)
      else AddSubjects(AddReplacements(table, IdOf(token), token, Leaves(found)), token, subjects[1..], query)
  }

  function CollectReplacements(tokens: seq<string>, pool: seq<Response>, query: JsonQuery,
                               table: seq<IdGroup>): Result<seq<IdGroup>, Error>
    requires forall t | t in tokens :: IsToken(t)
    decreases |tokens|
  {
    if tokens == [] then Ok(table)
    else
      var t := tokens[0];
      var subjects := Subjects(pool, IdOf(t));
      if subjects == [] then Err(UnknownRequest(IdOf(t)))
      else match AddSubjects(table, t, subjects, query)
        case Err(e) => Err(e)
        case Ok(next) => CollectReplacements(tokens[1..], pool, query, next)
  }

  function ExtractTokenReplacements(text: string, pool: seq<Response>, query: JsonQuery): Result<seq<IdGroup>, Error> {
    CollectReplacements(Dedupe(FindTokens(text)), pool, query, [])
  }

  function Flatten(table: seq<IdGroup>): seq<TokenValues> {
    if table == [] then [] else table[0].tokens + Flatten(table[1..])
  }

  // --- Replacing ---

  function ReplaceToken(token: string, value: Value, text: string): string
    requires token != ""
  {
    var unquoted := if value.Scalar? then ReplaceAll(text, Quoted(token), value.text) else text;
    ReplaceAll(unquoted, token, value.text)
  }

  /** All ways to choose one element of each group, the last group varying fastest. */
  function GetPoints<T>(groups: seq<seq<T>>): seq<seq<T>>
    requires groups != []
  {
    if |groups| == 1 then seq(|groups[0]|, i requires 0 <= i < |groups[0]| => [groups[0][i]])
    else PrependEach(groups[0], GetPoints(groups[1..]))
  }

  function PrependEach<T>(heads: seq<T>, tails: seq<seq<T>>): seq<seq<T>> {
    if heads == [] then []
    else seq(|tails|, i requires 0 <= i < |tails| => [heads[0]] + tails[i]) + PrependEach(heads[1..], tails)
  }

  function ReplacementsOf(group: TokenValues): seq<Replacement> {
    seq(|group.values|, i requires 0 <= i < |group.values| => Replacement(group.token, group.values[i]))
  }

  function GroupedByToken(groups: seq<TokenValues>): seq<seq<Replacement>> {
    seq(|groups|, i requires 0 <= i < |groups| => ReplacementsOf(groups[i]))
  }

  ghost predicate ProperPoint(point: seq<Replacement>) {
    forall r | r in point :: IsToken(r.token)
  }

  /** All replacements of a point, first to last, on one text. */
  function ApplyPoint(point: seq<Replacement>, text: string): string
    requires ProperPoint(point)
  {
    if point == [] then text
    else
      var n := |point| - 1;
      assert point[n] in point && IsToken(point[n].token);
      ReplaceToken(point[n].token, point[n].value, ApplyPoint(point[..n], text))
  }

  function LocationName(location: Location): string {
    if location == Uri then "uri" else "body"
  }

  function CloneSuffix(location: Location, index: nat): string {
    "#" + LocationName(location) + "{" + Decimal(index) + "}"
  }

  function TextAt(sub: Subrequest, location: Location): string {
    if location == Uri then sub.uri else sub.body
  }

  function CloneFor(sub: Subrequest, location: Location, index: nat, point: seq<Replacement>): Subrequest
    requires ProperPoint(point)
  {
    var text := ApplyPoint(point, TextAt(sub, location));
    var clone := sub.(requestId := sub.requestId + CloneSuffix(location, index));
    if location == Uri then clone.(uri := text) else clone.(body := text)
  }

  ghost predicate ProperGroups(groups: seq<TokenValues>) {
    forall g | g in groups :: IsToken(g.token)
  }

  lemma {:induction false} PointTokens(groups: seq<TokenValues>, point: seq<Replacement>)
    requires groups != [] && point in GetPoints(GroupedByToken(groups))
    ensures |point| == |groups| && forall j | 0 <= j < |groups| ::
               point[j].token == groups[j].token && point[j].value in groups[j].values
    decreases |groups|
  {
    if |groups| > 1 {
      var tail := PointSplits(groups, point);
      PointTokens(groups[1..], tail);
      forall j | 0 <= j < |groups| ensures point[j].token == groups[j].token && point[j].value in groups[j].values {
        if j > 0 { assert point[j] == tail[j - 1] && groups[j] == groups[1..][j - 1]; }
      }
    }
  }

  lemma PointSplits(groups: seq<TokenValues>, point: seq<Replacement>) returns (tail: seq<Replacement>)
    requires |groups| > 1 && point in GetPoints(GroupedByToken(groups))
    ensures tail in GetPoints(GroupedByToken(groups[1..])) && point != [] && point == [point[0]] + tail
    ensures point[0].token == groups[0].token && point[0].value in groups[0].values
  {
    var lists := GroupedByToken(groups);
    assert lists[1..] == GroupedByToken(groups[1..]);
    tail := PointOfPrepend(lists[0], GetPoints(lists[1..]), point);
  }

  lemma {:induction false} PointOfPrepend<T>(heads: seq<T>, tails: seq<seq<T>>, point: seq<T>) returns (tail: seq<T>)
    requires point in PrependEach(heads, tails)
    ensures point != [] && point[0] in heads && tail in tails && point == [point[0]] + tail
  {
    var first := seq(|tails|, i requires 0 <= i < |tails| => [heads[0]] + tails[i]);
    if point in first {
      var i :| 0 <= i < |first| && first[i] == point;
      tail := tails[i];
    } else {
      tail := PointOfPrepend(heads[1..], tails, point);
    }
  }

  ghost predicate ProperPoints(points: seq<seq<Replacement>>) {
    forall point | point in points :: ProperPoint(point)
  }

  /** The clones for the first `n` points. */
  function Clones(sub: Subrequest, location: Location, points: seq<seq<Replacement>>, n: nat): (clones: seq<Subrequest>)
    requires ProperPoints(points) && n <= |points|
    ensures |clones| == n
  {
    if n == 0 then [] else Clones(sub, location, points, n - 1) + [CloneFor(sub, location, n - 1, points[n - 1])]
  }

  lemma {:induction false} CloneAt(sub: Subrequest, location: Location, points: seq<seq<Replacement>>, n: nat, i: nat)
    requires ProperPoints(points) && i < n <= |points|
    ensures ProperPoint(points[i]) && Clones(sub, location, points, n)[i] == CloneFor(sub, location, i, points[i])
  {
    if i < n - 1 { CloneAt(sub, location, points, n - 1, i); }
  }

  /** The subrequests that replace `sub`, one for each point. */
  function ReplaceTokensInLocation(groups: seq<TokenValues>, sub: Subrequest,
                                   location: Location): (clones: seq<Subrequest>)
    requires groups != [] && ProperGroups(groups)
  {
    var points := GetPoints(GroupedByToken(groups));
    PointsAreProper(groups);
    Clones(sub, location, points, |points|)
  }

  lemma PointsAreProper(groups: seq<TokenValues>)
    requires groups != [] && ProperGroups(groups)
    ensures ProperPoints(GetPoints(GroupedByToken(groups)))
  {
    forall point | point in GetPoints(GroupedByToken(groups)) ensures ProperPoint(point) {
      PointIsProper(groups, point);
    }
  }

  lemma PointIsProper(groups: seq<TokenValues>, point: seq<Replacement>)
    requires groups != [] && ProperGroups(groups) && point in GetPoints(GroupedByToken(groups))
    ensures |point| == |groups| && ProperPoint(point)
  {
    PointTokens(groups, point);
    forall r | r in point ensures IsToken(r.token) {
      var j :| 0 <= j < |point| && point[j] == r;
      assert groups[j] in groups;
    }
  }

  method ReplaceEachToken(point: seq<Replacement>, text: string) returns (subject: string)
    requires ProperPoint(point)
    ensures subject == ApplyPoint(point, text)
  {
    subject := text;
    for k := 0 to |point|
      invariant subject == ApplyPoint(point[..k], text)
    {
      assert point[..k + 1][..k] == point[..k] && point[k] in point && IsToken(point[k].token);
      subject := ReplaceToken(point[k].token, point[k].value, subject);
    }
    assert point[..|point|] == point;
  }

  method CloneSubrequest(sub: Subrequest, location: Location, index: nat, point: seq<Replacement>)
    returns (cloned: Subrequest)
    requires ProperPoint(point)
    ensures cloned == CloneFor(sub, location, index, point)
  {
    cloned := sub.(requestId := sub.requestId + CloneSuffix(location, index));
    var subject := ReplaceEachToken(point, TextAt(cloned, location));
    cloned := if location == Uri then cloned.(uri := subject) else cloned.(body := subject);
  }

  /** The loop of the replacement step builds exactly these clones. */
  method DoReplaceTokensInLocation(groups: seq<TokenValues>, sub: Subrequest, location: Location)
    returns (replacements: seq<Subrequest>)
    requires groups != [] && ProperGroups(groups)
    ensures replacements == ReplaceTokensInLocation(groups, sub, location)
  {
    replacements := [];
    var points := GetPoints(GroupedByToken(groups));
    PointsAreProper(groups);
    ClonesStart(sub, location, points);
    ClonesAre(groups, sub, location);
    hide *;
    var index := 0;
    while index < |points|
      invariant index <= |points| && replacements == Clones(sub, location, points, index)
    {
      CloneNext(sub, location, points, index);
      var cloned := CloneSubrequest(sub, location, index, points[index]);
      index := index + 1;
      replacements := replacements + [cloned];
    }
  }

  lemma ClonesStart(sub: Subrequest, location: Location, points: seq<seq<Replacement>>)
    requires ProperPoints(points)
    ensures Clones(sub, location, points, 0) == []
  {
  }

  lemma CloneNext(sub: Subrequest, location: Location, points: seq<seq<Replacement>>, n: nat)
    requires ProperPoints(points) && n < |points|
    ensures ProperPoint(points[n])
    ensures Clones(sub, location, points, n + 1) ==
               Clones(sub, location, points, n) + [CloneFor(sub, location, n, points[n])]
  {
  }

  lemma ClonesAre(groups: seq<TokenValues>, sub: Subrequest, location: Location)
    requires groups != [] && ProperGroups(groups)
    ensures var points := GetPoints(GroupedByToken(groups));
            ProperPoints(points) &&
              ReplaceTokensInLocation(groups, sub, location) == Clones(sub, location, points, |points|)
  {
    PointsAreProper(groups);
  }

  // --- What extraction delivers ---

  predicate Has(groups: seq<TokenValues>, t: string) {
    groups != [] && (groups[0].token == t || Has(groups[1..], t))
  }

  function Lookup(groups: seq<TokenValues>, t: string): seq<Value> {
    if groups == [] then [] else if groups[0].token == t then groups[0].values else Lookup(groups[1..], t)
  }

  predicate DistinctTokens(groups: seq<TokenValues>) {
    groups == [] || (!Has(groups[1..], groups[0].token) && DistinctTokens(groups[1..]))
  }

  predicate HasId(table: seq<IdGroup>, id: string) {
    table != [] && (table[0].id == id || HasId(table[1..], id))
  }

  /** Every token stands once, under its own id, and every id stands once. */
  ghost predicate TableOk(table: seq<IdGroup>) {
    table == [] ||
    (&& DistinctTokens(table[0].tokens)
     && (forall t :: Has(table[0].tokens, t) ==> IsToken(t) && IdOf(t) == table[0].id)
     && !HasId(table[1..], table[0].id)
     && TableOk(table[1..]))
  }

  lemma {:induction false} AddTokenSpec(tokens: seq<TokenValues>, token: string, values: seq<Value>, t: string)
    ensures Has(AddToken(tokens, token, values), t) <==> t == token || Has(tokens, t)
    ensures Lookup(AddToken(tokens, token, values), t) == Lookup(tokens, t) + if t == token then values else []
    ensures DistinctTokens(tokens) ==> DistinctTokens(AddToken(tokens, token, values))
  {
    if tokens != [] && tokens[0].token != token {
      AddTokenSpec(tokens[1..], token, values, t);
      AddTokenSpec(tokens[1..], token, values, tokens[0].token);
    }
  }

  lemma {:induction false} ConcatSpec(a: seq<TokenValues>, b: seq<TokenValues>, t: string)
    ensures Has(a + b, t) <==> Has(a, t) || Has(b, t)
    ensures Lookup(a + b, t) == if Has(a, t) then Lookup(a, t) else Lookup(b, t)
  {
    if a == [] {
      assert a + b == b;
    } else {
      assert (a + b)[1..] == a[1..] + b;
      ConcatSpec(a[1..], b, t);
    }
  }

  lemma {:induction false} ConcatDistinct(a: seq<TokenValues>, b: seq<TokenValues>)
    requires DistinctTokens(a) && DistinctTokens(b) && forall t :: Has(a, t) ==> !Has(b, t)
    ensures DistinctTokens(a + b)
  {
    if a == [] {
      assert a + b == b;
    } else {
      assert (a + b)[1..] == a[1..] + b;
      assert Has(a, a[0].token);
      ConcatSpec(a[1..], b, a[0].token);
      assert forall t :: Has(a[1..], t) ==> Has(a, t);
      ConcatDistinct(a[1..], b);
    }
  }

  lemma {:induction false} LookupAbsent(groups: seq<TokenValues>, t: string)
    requires !Has(groups, t)
    ensures Lookup(groups, t) == []
  {
    if groups != [] { LookupAbsent(groups[1..], t); }
  }

  lemma {:induction false} FlattenIds(table: seq<IdGroup>, t: string)
    requires TableOk(table) && Has(Flatten(table), t)
    ensures IsToken(t) && HasId(table, IdOf(t))
  {
    ConcatSpec(table[0].tokens, Flatten(table[1..]), t);
    if !Has(table[0].tokens, t) { FlattenIds(table[1..], t); }
  }

  lemma {:induction false} FlattenDistinct(table: seq<IdGroup>)
    requires TableOk(table)
    ensures DistinctTokens(Flatten(table))
  {
    if table != [] {
      FlattenDistinct(table[1..]);
      forall t | Has(table[0].tokens, t) ensures !Has(Flatten(table[1..]), t) {
        if Has(Flatten(table[1..]), t) { FlattenIds(table[1..], t); }
      }
      ConcatDistinct(table[0].tokens, Flatten(table[1..]));
    }
  }

  lemma {:induction false} AddReplacementsIds(table: seq<IdGroup>, id: string, token: string, values: seq<Value>,
                                              other: string)
    ensures HasId(AddReplacements(table, id, token, values), other) <==> other == id || HasId(table, other)
  {
    if table != [] && table[0].id != id {
      AddReplacementsIds(table[1..], id, token, values, other);
    }
  }

  lemma {:induction false} AddReplacementsOk(table: seq<IdGroup>, token: string, values: seq<Value>)
    requires TableOk(table) && IsToken(token)
    ensures TableOk(AddReplacements(table, IdOf(token), token, values))
  {
    var id := IdOf(token);
    var next := AddReplacements(table, id, token, values);
    if table == [] {
      assert next[0].tokens == [TokenValues(token, values)] && next[1..] == [];
      assert forall t :: Has(next[0].tokens, t) ==> t == token;
      assert DistinctTokens(next[0].tokens);
    } else if table[0].id == id {
      AddTokenSpec(table[0].tokens, token, values, token);
      assert next[0] == IdGroup(id, AddToken(table[0].tokens, token, values)) && next[1..] == table[1..];
      forall t | Has(next[0].tokens, t) ensures IsToken(t) && IdOf(t) == id {
        AddTokenSpec(table[0].tokens, token, values, t);
      }
    } else {
      AddReplacementsOk(table[1..], token, values);
      AddReplacementsIds(table[1..], id, token, values, table[0].id);
      assert next[0] == table[0] && next[1..] == AddReplacements(table[1..], id, token, values);
    }
  }

  lemma {:induction false} AddReplacementsSpec(table: seq<IdGroup>, token: string, values: seq<Value>, t: string)
    requires TableOk(table) && IsToken(token)
    ensures var next := AddReplacements(table, IdOf(token), token, values);
            && (Has(Flatten(next), t) <==> t == token || Has(Flatten(table), t))
            && Lookup(Flatten(next), t) == Lookup(Flatten(table), t) + if t == token then values else []
  {
    var id := IdOf(token);
    var next := AddReplacements(table, id, token, values);
    if table == [] {
      assert Flatten(next) == [TokenValues(token, values)];
    } else {
      var rest := Flatten(table[1..]);
      ConcatSpec(table[0].tokens, rest, t);
      ConcatSpec(next[0].tokens, Flatten(next[1..]), t);
      if table[0].id == id {
        assert next[1..] == table[1..];
        AddTokenSpec(table[0].tokens, token, values, t);
        if t == token && !Has(table[0].tokens, t) {
          if Has(rest, t) { FlattenIds(table[1..], t); }
          LookupAbsent(rest, t);
          LookupAbsent(table[0].tokens, t);
        }
      } else {
        assert next[1..] == AddReplacements(table[1..], id, token, values);
        AddReplacementsSpec(table[1..], token, values, t);
      }
    }
  }

  /** All values that a token finds, subject by subject. */
  function FoundIn(subjects: seq<Response>, path: string, query: JsonQuery): seq<Value> {
    if subjects == [] then []
    else
      var found := query(subjects[0].content, path);
      (if Structured in found then [] else Leaves(found)) + FoundIn(subjects[1..], path, query)
  }

  function ValuesOf(token: string, pool: seq<Response>, query: JsonQuery): seq<Value>
    requires IsToken(token)
  {
    FoundIn(Subjects(pool, IdOf(token)), SplitToken(token).1, query)
  }

  lemma {:induction false} AddSubjectsSpec(table: seq<IdGroup>, token: string, subjects: seq<Response>,
                                           query: JsonQuery, t: string)
    requires TableOk(table) && IsToken(token) && subjects != [] && AddSubjects(table, token, subjects, query).Ok?
    ensures var next := AddSubjects(table, token, subjects, query).value;
            && TableOk(next)
            && (Has(Flatten(next), t) <==> t == token || Has(Flatten(table), t))
            && Lookup(Flatten(next), t) ==
                 Lookup(Flatten(table), t) + if t == token then FoundIn(subjects, SplitToken(token).1, query) else []
    decreases |subjects|
  {
    hide *;
    var path, values, one := AddSubjectsStep(table, token, subjects, query);
    AddReplacementsOk(table, token, values);
    AddReplacementsSpec(table, token, values, t);
    FoundInStep(subjects, path, query);
    if |subjects| > 1 {
      AddSubjectsSpec(one, token, subjects[1..], query, t);
    }
  }

  lemma AddSubjectsStep(table: seq<IdGroup>, token: string, subjects: seq<Response>, query: JsonQuery)
    returns (path: string, values: seq<Value>, next: seq<IdGroup>)
    requires IsToken(token) && subjects != [] && AddSubjects(table, token, subjects, query).Ok?
    ensures path == SplitToken(token).1 && Structured !in query(subjects[0].content, path)
    ensures values == Leaves(query(subjects[0].content, path))
    ensures next == AddReplacements(table, IdOf(token), token, values)
    ensures AddSubjects(table, token, subjects, query) == AddSubjects(next, token, subjects[1..], query)
    ensures |subjects| == 1 ==> AddSubjects(table, token, subjects, query) == Ok(next)
  {
    hide SplitToken, AddReplacements, Leaves, IdOf, IsToken;
    path := SplitToken(token).1;
    values := Leaves(query(subjects[0].content, path));
    next := AddReplacements(table, IdOf(token), token, values);
  }

  lemma FoundInStep(subjects: seq<Response>, path: string, query: JsonQuery)
    requires subjects != [] && Structured !in query(subjects[0].content, path)
    ensures FoundIn(subjects, path, query) ==
               Leaves(query(subjects[0].content, path)) + FoundIn(subjects[1..], path, query)
    ensures |subjects| == 1 ==> FoundIn(subjects, path, query) == Leaves(query(subjects[0].content, path))
  {
  }

  lemma {:induction false} CollectSpec(tokens: seq<string>, pool: seq<Response>, query: JsonQuery, table: seq<IdGroup>,
                                       t: string)
    requires (forall u | u in tokens :: IsToken(u)) && TableOk(table)
    requires forall i, j | 0 <= i < j < |tokens| :: tokens[i] != tokens[j]
    requires CollectReplacements(tokens, pool, query, table).Ok?
    ensures var next := CollectReplacements(tokens, pool, query, table).value;
            && TableOk(next)
            && (Has(Flatten(next), t) <==> t in tokens || Has(Flatten(table), t))
            && Lookup(Flatten(next), t) == Lookup(Flatten(table), t) +
                 if t in tokens then ValuesOf(t, pool, query) else []
    decreases |tokens|
  {
    CollectNothing(pool, query, table);
    hide *;
    if tokens != [] {
      var u := tokens[0];
      var subjects, next := CollectStep(tokens, pool, query, table);
      AddSubjectsSpec(table, u, subjects, query, t);
      CollectSpec(tokens[1..], pool, query, next, t);
      assert tokens == [u] + tokens[1..];
      if t == u { ValuesAre(u, pool, query); }
    }
  }

  lemma CollectNothing(pool: seq<Response>, query: JsonQuery, table: seq<IdGroup>)
    ensures CollectReplacements([], pool, query, table) == Ok(table)
  {
  }

  lemma CollectStep(tokens: seq<string>, pool: seq<Response>, query: JsonQuery, table: seq<IdGroup>)
    returns (subjects: seq<Response>, next: seq<IdGroup>)
    requires tokens != [] && forall u | u in tokens :: IsToken(u)
    requires CollectReplacements(tokens, pool, query, table).Ok?
    ensures subjects == Subjects(pool, IdOf(tokens[0])) && subjects != []
    ensures AddSubjects(table, tokens[0], subjects, query) == Ok(next)
    ensures CollectReplacements(tokens[1..], pool, query, next) == CollectReplacements(tokens, pool, query, table)
  {
    hide Subjects, AddSubjects, IdOf, IsToken;
    subjects := Subjects(pool, IdOf(tokens[0]));
    next := AddSubjects(table, tokens[0], subjects, query).value;
  }

  lemma ValuesAre(token: string, pool: seq<Response>, query: JsonQuery)
    requires IsToken(token)
    ensures ValuesOf(token, pool, query) == FoundIn(Subjects(pool, IdOf(token)), SplitToken(token).1, query)
  {
  }

  /**
   * Extraction lists each token of the text once, together with everything the token finds in the
   * responses of the request it names.
   */
  lemma ExtractedGroups(text: string, pool: seq<Response>, query: JsonQuery, t: string)
    requires ExtractTokenReplacements(text, pool, query).Ok?
    ensures var groups := Flatten(ExtractTokenReplacements(text, pool, query).value);
            && DistinctTokens(groups)
            && (Has(groups, t) <==> t in FindTokens(text))
            && (t in FindTokens(text) ==> Lookup(groups, t) == ValuesOf(t, pool, query))
  {
    ExtractionIs(text, pool, query, t);
    hide *;
    var tokens := Dedupe(FindTokens(text));
    CollectSpec(tokens, pool, query, [], t);
    FlattenDistinct(ExtractTokenReplacements(text, pool, query).value);
  }

  lemma ExtractionIs(text: string, pool: seq<Response>, query: JsonQuery, t: string)
    ensures forall u | u in Dedupe(FindTokens(text)) :: IsToken(u)
    ensures ExtractTokenReplacements(text, pool, query) ==
               CollectReplacements(Dedupe(FindTokens(text)), pool, query, [])
    ensures TableOk([]) && !Has(Flatten([]), t) && Lookup(Flatten([]), t) == []
  {
    hide CollectReplacements, Dedupe, FindTokens, IsToken;
  }

  // --- What a token names ---

  lemma {:induction false} LastAtIs(b: string, q: nat, n: nat)
    requires q <= n < |b| && b[q] == '@' && forall i | q < i <= n :: b[i] != '@'
    ensures LastAt(b, n) == q
    decreases n
  {
    if q < n { LastAtIs(b, q, n - 1); }
  }

  /** The parts of a token: what stands before the last `@` and what stands behind it. */
  lemma TokenParts(subject: string, path: string)
    requires IsToken("{{" + subject + "@" + path + "}}") && path != "" && '@' !in path
    ensures SplitToken("{{" + subject + "@" + path + "}}") == (subject, path)
  {
    var t := "{{" + subject + "@" + path + "}}";
    var b := subject + "@" + path;
    assert t[2..|t| - 2] == b && b[|subject|] == '@';
    forall i | |subject| < i < |b| ensures b[i] != '@' {
      assert b[i] == path[i - |subject| - 1] && b[i] in path;
    }
    TokenShape(t);
    LastAtIs(b, |subject|, |b| - 2);
    assert b[..|subject|] == subject && b[|subject| + 1..] == path;
  }

  /** A token `{{id.body@path}}` names the request `id`, and asks for `path`. */
  lemma BodyTokenNames(id: string, path: string)
    requires id != "" && BraceFree(id) && path != "" && BraceFree(path) && '@' !in path
    ensures var t := "{{" + id + ".body@" + path + "}}";
            IsToken(t) && IdOf(t) == id && SplitToken(t).1 == path
  {
    var t, subject := "{{" + id + ".body@" + path + "}}", id + ".body";
    assert t == "{{" + subject + "@" + path + "}}";
    BodyIsToken(id, path);
    TokenParts(subject, path);
    assert subject[|subject| - 5..] == ".body" && subject[..|subject| - 5] == id;
  }

  lemma BodyIsToken(id: string, path: string)
    requires id != "" && BraceFree(id) && path != "" && BraceFree(path)
    ensures IsToken("{{" + (id + ".body") + "@" + path + "}}")
  {
    var subject := id + ".body";
    assert subject[|id|] == '.' && |subject| == |id| + 5;
    assert forall c | c in subject :: c in id || c in ".body";
    TokenWithDot(subject, path, |id|);
  }

  lemma TokenWithDot(subject: string, path: string, p: nat)
    requires BraceFree(subject) && BraceFree(path) && path != "" && 1 <= p < |subject| - 1 && subject[p] == '.'
    ensures IsToken("{{" + subject + "@" + path + "}}")
  {
    var body := subject + "@" + path;
    var t := "{{" + subject + "@" + path + "}}";
    assert t[2..] == body + "}}" && t[2..][..|body|] == body && t[2..|body| + 2] == body;
    RunLengthUnique(t[2..], |body|);
    assert body[p] == '.' && body[|subject|] == '@';
  }

  /** A subject that does not end in `.body` is the id itself. */
  lemma OtherTokenNames(subject: string, path: string)
    requires IsToken("{{" + subject + "@" + path + "}}") && path != "" && '@' !in path
    requires |subject| < 5 || subject[|subject| - 5..] != ".body"
    ensures IdOf("{{" + subject + "@" + path + "}}") == subject
  {
    TokenParts(subject, path);
  }

  /** One part contains another exactly if it is found at some place. */
  lemma {:induction false} ContainsIff(s: string, part: string)
    ensures Contains(s, part) <==> exists i :: 0 <= i <= |s| && part <= s[i..]
  {
    assert s[0..] == s;
    if s != "" {
      ContainsIff(s[1..], part);
      if i :| 0 <= i <= |s[1..]| && part <= s[1..][i..] { assert s[1..][i..] == s[i + 1..]; }
      if i :| 0 <= i <= |s| && part <= s[i..] { if i > 0 { assert s[1..][i - 1..] == s[i..]; } }
    }
  }

  /** The subjects are the responses whose id contains the id asked for, in order and each as often as it occurs. */
  lemma {:induction false} SubjectsExactly(a: seq<Response>, b: seq<Response>, id: string)
    ensures Subjects(a + b, id) == Subjects(a, id) + Subjects(b, id)
    ensures forall r | |a| == 1 && a[0] == r :: Subjects(a, id) == if Contains(r.contentId, id) then [r] else []
    decreases |a|
  {
    if a == [] {
      assert a + b == b;
    } else {
      assert (a + b)[1..] == a[1..] + b && (a + b)[0] == a[0];
      SubjectsExactly(a[1..], b, id);
    }
  }

  /** What is found is put together response by response. */
  lemma {:induction false} FoundInParts(a: seq<Response>, b: seq<Response>, path: string, query: JsonQuery)
    ensures FoundIn(a + b, path, query) == FoundIn(a, path, query) + FoundIn(b, path, query)
    decreases |a|
  {
    if a == [] {
      assert a + b == b;
    } else {
      assert (a + b)[1..] == a[1..] + b && (a + b)[0] == a[0];
      FoundInParts(a[1..], b, path, query);
    }
  }

  /** In one response everything is found that the query delivers, in order. */
  lemma FoundInOne(r: Response, path: string, query: JsonQuery)
    requires Structured !in query(r.content, path)
    ensures |FoundIn([r], path, query)| == |query(r.content, path)|
    ensures forall i | 0 <= i < |query(r.content, path)| ::
              query(r.content, path)[i] == Leaf(FoundIn([r], path, query)[i])
  {
    assert [r][1..] == [];
    assert FoundIn([r], path, query) == Leaves(query(r.content, path)) + FoundIn([], path, query);
  }

  // --- Replacing in a text that holds a token once ---

  lemma {:induction false} ReplaceOnce(a: string, t: string, b: string, v: string)
    requires t != "" && forall i | 0 <= i < |a| :: !(t <= (a + (t + b))[i..])
    requires forall i | 0 <= i < |b| :: !(t <= b[i..])
    ensures ReplaceAll(a + (t + b), t, v) == a + (v + b)
  {
    var s := a + (t + b);
    ReplaceAllCopies(s, t, v, 0, |a|);
    assert s[0..] == s && s[0..|a|] == a && s[|a|..] == t + b;
    ReplaceHit(t + b, t, v);
    assert (t + b)[|t|..] == b;
    ReplaceNowhere(b, t, v);
  }

  lemma ReplaceNowhere(s: string, p: string, v: string)
    requires p != "" && forall i | 0 <= i < |s| :: !(p <= s[i..])
    ensures ReplaceAll(s, p, v) == s
  {
    ReplaceAllCopies(s, p, v, 0, |s|);
    assert s[0..] == s && s[0..|s|] == s && s[|s|..] == "";
    NothingReplaced(p, v, p);
    assert s + "" == s;
  }

  ghost predicate NoCopy(t: string, s: string) {
    forall i | 0 <= i < |s| :: !(t <= s[i..])
  }

  /** A token that stands behind other text is not found before its place. */
  lemma NotFoundBefore(a: string, c: string, t: string, b: string, i: nat)
    requires IsToken(t) && NoCopy(t, a) && i < |a| && BraceFree(c)
    ensures !(t <= (a + (c + (t + b)))[i..])
  {
    var s := a + (c + (t + b));
    TokenShape(t);
    if i + |t| <= |a| {
      assert s[i..][..|t|] == a[i..][..|t|];
      assert !(t <= a[i..]);
    } else if i + |t| <= |a + c| {
      assert s[i..][|t| - 1] == c[i + |t| - 1 - |a|] && c[i + |t| - 1 - |a|] in c;
    } else {
      var k := |a + c| - i;
      assert s[i..][k] == t[0];
      if k == 1 { assert s[i..][2] == t[1]; }
    }
  }

  /** Where a token stands once, its value takes its place. */
  lemma StringReplaced(a: string, t: string, b: string, v: string)
    requires IsToken(t) && NoCopy(t, a) && NoCopy(t, b)
    ensures t != "" && ReplaceToken(t, Text(v), a + (t + b)) == a + (v + b)
  {
    TokenShape(t);
    forall i | 0 <= i < |a| ensures !(t <= (a + (t + b))[i..]) {
      NotFoundBefore(a, "", t, b, i);
      assert a + ("" + (t + b)) == a + (t + b);
    }
    ReplaceOnce(a, t, b, v);
  }

  /**
   * A number or boolean takes the place of its token and of the quotes around it. A string leaves the quotes.
   */
  lemma ScalarLosesQuotes(a: string, t: string, b: string, v: Value)
    requires IsToken(t) && NoCopy(t, a) && NoCopy(t, b) && NoCopy(t, a + (v.text + b))
    ensures t != "" && ReplaceToken(t, v, a + (Quoted(t) + b)) ==
                         if v.Scalar? then a + (v.text + b) else a + ("\"" + (v.text + ("\"" + b)))
  {
    TokenShape(t);
    QuotedOnce(a, t, b);
    if v.Scalar? {
      ReplaceOnce(a, Quoted(t), b, v.text);
      ReplaceNowhere(a + (v.text + b), t, v.text);
    } else {
      QuoteIsFree(a, t, b);
      assert a + (Quoted(t) + b) == (a + "\"") + (t + ("\"" + b));
      StringReplaced(a + "\"", t, "\"" + b, v.text);
      assert (a + "\"") + (v.text + ("\"" + b)) == a + ("\"" + (v.text + ("\"" + b)));
    }
  }

  lemma QuotedOnce(a: string, t: string, b: string)
    requires IsToken(t) && NoCopy(t, a) && NoCopy(t, b)
    ensures forall i | 0 <= i < |a| :: !(Quoted(t) <= (a + (Quoted(t) + b))[i..])
    ensures forall i | 0 <= i < |b| :: !(Quoted(t) <= b[i..])
  {
    var s, q := a + (Quoted(t) + b), Quoted(t);
    assert s == a + ("\"" + (t + ("\"" + b)));
    TokenShape(t);
    assert q[1..][..|t|] == t;
    forall i | 0 <= i < |a| ensures !(q <= s[i..]) {
      if i + 1 < |a| {
        NotFoundBefore(a, "\"", t, "\"" + b, i + 1);
        QuotedHolds(t, s, i);
      } else {
        assert s[i..][1] == '"' && q[1] == t[0] == '{';
      }
    }
    forall i | 0 <= i < |b| ensures !(q <= b[i..]) {
      QuotedHolds(t, b, i);
      assert i + 1 < |b| ==> !(t <= b[i + 1..]);
    }
  }

  /** Where a token stands in quotes, the token stands one place further on. */
  lemma QuotedHolds(t: string, s: string, i: nat)
    requires t != "" && i < |s|
    ensures Quoted(t) <= s[i..] ==> i + 1 < |s| && t <= s[i + 1..]
  {
    var q := Quoted(t);
    assert q[1..][..|t|] == t;
    if q <= s[i..] {
      assert s[i..][..|q|] == q;
      assert s[i + 1..][..|t|] == q[1..][..|t|];
    }
  }

  lemma QuoteIsFree(a: string, t: string, b: string)
    requires IsToken(t) && NoCopy(t, a) && NoCopy(t, b)
    ensures NoCopy(t, a + "\"") && NoCopy(t, "\"" + b)
  {
    TokenShape(t);
    forall i | 0 <= i < |a + "\""| ensures !(t <= (a + "\"")[i..]) {
      if i < |a| {
        assert !(t <= a[i..]);
        var rest := (a + "\"")[i..];
        assert rest == a[i..] + "\"" && rest[|rest| - 1] == '"';
        if |t| < |rest| { assert rest[..|t|] == a[i..][..|t|]; }
      } else {
        assert (a + "\"")[i..] == "\"";
      }
    }
    forall i | 0 <= i < |"\"" + b| ensures !(t <= ("\"" + b)[i..]) {
      if i > 0 { assert ("\"" + b)[i..] == b[i - 1..]; }
    }
  }
}
