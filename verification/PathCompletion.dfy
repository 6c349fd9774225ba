/** Completing a partly typed path: what is offered leads somewhere, and everything that matches is offered. */
module PathCompletion {
  import opened Wrappers
  import opened DelimitedText
  import opened TypedData
  import opened DataFetcher

  predicate DotFree(s: string) {
    Free(s, '.')
  }

  function LowerChar(c: char): char {
    if 'A' <= c <= 'Z' then c - 'A' + 'a' else c
  }

  /** Whether `s` begins with `prefix`, ignoring case. */
  predicate Begins(s: string, prefix: string) {
    |prefix| <= |s| && forall i | 0 <= i < |prefix| :: LowerChar(s[i]) == LowerChar(prefix[i])
  }

  predicate Opens(schema: Schema, d: nat)
    requires ClosedSchema(schema) && d in schema
  {
    var t := Dereferenced(schema, d);
    schema[t].ListDefinition? || schema[t].ComplexDefinition?
  }

  /** The completions that stand for one definition under one name. */
  function Suggestions(schema: Schema, d: nat, name: string): seq<string>
    requires ClosedSchema(schema) && d in schema
  {
    [name] + if Opens(schema, d) then [name + "."] else []
  }

  /** The entries of an ordered table whose names begin with `prefix`, under the names with `base` in front. */
  function Matching(schema: Schema, table: seq<(string, nat)>, base: string, prefix: string): seq<string>
    requires ClosedSchema(schema) && forall i | 0 <= i < |table| :: table[i].1 in schema
  {
    if table == [] then []
    else
      var (name, d) := table[|table| - 1];
      Matching(schema, table[..|table| - 1], base, prefix) +
      if Begins(name, prefix) then Suggestions(schema, d, base + name) else []
  }

  const FIRST_INDICES := ["0", "1", "2"]

  /** The first `n` example indices of a list. */
  function Indices(schema: Schema, item: nat, base: string, n: nat): seq<string>
    requires ClosedSchema(schema) && item in schema && n <= |FIRST_INDICES|
  {
    if n == 0 then []
    else Indices(schema, item, base, n - 1) + Suggestions(schema, item, base + "." + FIRST_INDICES[n - 1])
  }

  function Names(table: seq<(string, nat)>): seq<string> {
    seq(|table|, i requires 0 <= i < |table| => table[i].0)
  }

  /** The variable that a partial path starts with, and the names that follow it. */
  function Parts(partial: string): (string, seq<string>) {
    match Position(partial, ':')
    case None => (Explode(partial, '.')[0], Explode(partial, '.')[1..])
    case Some(colon) =>
      var parts := Explode(partial[colon + 1..], '.');
      (partial[..colon + 1] + parts[0], parts[1..])
  }

  /** The names between the variable and the last name. */
  function Middle(rest: seq<string>): seq<string>
    requires rest != []
  {
    var names := rest[..|rest| - 1];
    if Implode(names, '.') == "" then [] else names
  }

  /** What is offered for the last name of a path whose earlier names lead to `d`. */
  function Offered(schema: Schema, d: nat, base: string, last: string): seq<string>
    requires ClosedSchema(schema) && d in schema
  {
    var t := Dereferenced(schema, d);
    var e := if schema[t].ListDefinition? && !IsDigits(last) then schema[t].item else t;
    (if schema[t].ListDefinition? && last == "" && !schema[t].single
     then Indices(schema, schema[t].item, base, |FIRST_INDICES|) else []) +
    if schema[e].ComplexDefinition? then Matching(schema, schema[e].properties, base + ".", last) else []
  }

  function Completions(schema: Schema, variables: seq<(string, nat)>, partial: string): seq<string>
    requires ClosedSchema(schema) && forall i | 0 <= i < |variables| :: variables[i].1 in schema
  {
    var top := Matching(schema, variables, "", partial);
    var (first, rest) := Parts(partial);
    if partial == "" then Names(variables)
    else if top != [] then top
    else if Lookup(variables, first).None? || rest == [] then []
    else
      match Defined(schema, Lookup(variables, first).value, Middle(rest), 0)
      case Err(_) => []
      case Ok(d) => Offered(schema, d, Implode([first] + Middle(rest), '.'), rest[|rest| - 1])
  }

  /**
   * A definition is offered under its name, and with a trailing dot exactly if some name leads further from it, or it
   * is complex without any property.
   */
  method GetAutocompleteSuggestion(schema: Schema, d: nat, name: string) returns (results: seq<string>)
    requires ClosedSchema(schema) && d in schema
    ensures results == Suggestions(schema, d, name)
    ensures name in results && forall s | s in results :: s == name || s == name + "."
    ensures name + "." in results <==>
              (exists next :: DefinitionStep(schema, d, next).Some?) || WithoutProperties(schema, d)
  {
    OpensIff(schema, d);
    assert |name + "."| != |name|;
    results := [name];
    var definition := d;
    if schema[definition].ReferenceDefinition? {
      definition := schema[definition].target;
    }
    if schema[definition].ListDefinition? || schema[definition].ComplexDefinition? {
      results := results + [name + "."];
    }
  }

  predicate WithoutProperties(schema: Schema, d: nat)
    requires ClosedSchema(schema) && d in schema
  {
    schema[Dereferenced(schema, d)] == ComplexDefinition([])
  }

  lemma OpensIff(schema: Schema, d: nat)
    requires ClosedSchema(schema) && d in schema
    ensures Opens(schema, d) <==>
              (exists next :: DefinitionStep(schema, d, next).Some?) || WithoutProperties(schema, d)
  {
    match schema[Dereferenced(schema, d)]
    case ListDefinition(item, _) =>
      assert DefinitionStep(schema, d, "0") == Some(item);
    case ComplexDefinition(properties) =>
      if properties != [] { assert DefinitionStep(schema, d, properties[0].0).Some?; }
    case _ =>
  }

  method MatchingSuggestions(schema: Schema, table: seq<(string, nat)>, base: string, prefix: string)
    returns (results: seq<string>)
    requires ClosedSchema(schema) && forall i | 0 <= i < |table| :: table[i].1 in schema
    ensures results == Matching(schema, table, base, prefix)
  {
    results := [];
    for i := 0 to |table|
      invariant results == Matching(schema, table[..i], base, prefix)
    {
      assert table[..i + 1][..i] == table[..i];
      if Begins(table[i].0, prefix) {
        var more := GetAutocompleteSuggestion(schema, table[i].1, base + table[i].0);
        results := results + more;
      }
    }
    assert table[..|table|] == table;
  }

  method AutocompletePropertyPath(schema: Schema, variables: seq<(string, nat)>, partial: string)
    returns (results: seq<string>)
    requires ClosedSchema(schema) && forall i | 0 <= i < |variables| :: variables[i].1 in schema
    ensures results == Completions(schema, variables, partial)
  {
    if partial == "" {
      return Names(variables);
    }
    results := MatchingSuggestions(schema, variables, "", partial);
    if results != [] {
      return;
    }
    PartsRejoin(partial);
    var (first, rest) := Parts(partial);
    var variable := Lookup(variables, first);
    if variable.None? {
      return [];
    }
    if rest == [] {
      // The variable would have matched above.
      VariableMatches(schema, variables, partial);
      assert false;
    }
    var last := rest[|rest| - 1];
    var middlePath := Implode(rest[..|rest| - 1], '.');
    MiddleExplodes(partial);
    var definition := variable.value;
    var base := first;
    if middlePath != "" {
      var fetched := FetchDefinitionByPropertyPath(schema, definition, middlePath);
      if fetched.Err? {
        return [];
      }
      definition := fetched.value;
      base := first + "." + middlePath;
    }
    results := SuggestLast(schema, definition, base, last);
  }

  /** The last part of the completion, for the definition that the earlier names lead to. */
  method SuggestLast(schema: Schema, d: nat, base: string, last: string) returns (results: seq<string>)
    requires ClosedSchema(schema) && d in schema
    ensures results == Offered(schema, d, base, last)
  {
    results := [];
    var definition := d;
    if schema[definition].ReferenceDefinition? {
      definition := schema[definition].target;
    }
    if schema[definition].ListDefinition? {
      if last == "" && !schema[definition].single {
        for i := 0 to |FIRST_INDICES|
          invariant results == Indices(schema, schema[definition].item, base, i)
        {
          var more := GetAutocompleteSuggestion(schema, schema[definition].item, base + "." + FIRST_INDICES[i]);
          results := results + more;
        }
      }
      if !IsDigits(last) {
        definition := schema[definition].item;
      }
    }
    if schema[definition].ComplexDefinition? {
      var more := MatchingSuggestions(schema, schema[definition].properties, base + ".", last);
      results := results + more;
    }
  }

  // --- Taking a partial path apart ---

  lemma PartsRejoin(partial: string)
    ensures Parts(partial).1 == [] ==> Parts(partial).0 == partial
    ensures forall part | part in Parts(partial).1 :: DotFree(part)
  {
    match Position(partial, ':')
    case None =>
      ImplodeExplode(partial, '.');
      ExplodedFree(partial, '.');
    case Some(colon) =>
      ImplodeExplode(partial[colon + 1..], '.');
      ExplodedFree(partial[colon + 1..], '.');
      assert partial == partial[..colon + 1] + partial[colon + 1..];
  }

  lemma {:induction false} VariableMatches(schema: Schema, variables: seq<(string, nat)>, partial: string)
    requires ClosedSchema(schema) && forall i | 0 <= i < |variables| :: variables[i].1 in schema
    requires Lookup(variables, partial).Some?
    ensures Matching(schema, variables, "", partial) != []
  {
    var i :| 0 <= i < |variables| && variables[i].0 == partial;
    assert "" + partial == partial;
    MatchingHas(schema, variables, "", partial, i, partial);
  }

  lemma MiddleExplodes(partial: string)
    requires Parts(partial).1 != []
    ensures var rest := Parts(partial).1; var path := Implode(rest[..|rest| - 1], '.');
            && Middle(rest) == (if path == "" then [] else Explode(path, '.'))
            && Implode([Parts(partial).0] + Middle(rest), '.') ==
                 if path == "" then Parts(partial).0 else Parts(partial).0 + "." + path
  {
    PartsRejoin(partial);
    var rest := Parts(partial).1;
    var names := rest[..|rest| - 1];
    if Implode(names, '.') != "" {
      forall part | part in names ensures DotFree(part) { assert part in rest; }
      ExplodeImplode(names, '.');
      assert ([Parts(partial).0] + names)[1..] == names;
    }
  }

  // --- What is offered ---

  /** A matching entry is offered, with and without a trailing dot as it opens or not. */
  lemma {:induction false} MatchingHas(schema: Schema, table: seq<(string, nat)>, base: string, prefix: string, i: nat,
                                       s: string)
    requires ClosedSchema(schema) && forall i | 0 <= i < |table| :: table[i].1 in schema
    requires i < |table| && Begins(table[i].0, prefix) && s in Suggestions(schema, table[i].1, base + table[i].0)
    ensures s in Matching(schema, table, base, prefix)
  {
    if i < |table| - 1 {
      MatchingHas(schema, table[..|table| - 1], base, prefix, i, s);
    }
  }

  /** Only matching entries are offered. */
  lemma {:induction false} MatchingOnly(schema: Schema, table: seq<(string, nat)>, base: string, prefix: string,
                                        s: string)
    returns (i: nat)
    requires ClosedSchema(schema) && forall i | 0 <= i < |table| :: table[i].1 in schema
    requires s in Matching(schema, table, base, prefix)
    ensures i < |table| && Begins(table[i].0, prefix) && s in Suggestions(schema, table[i].1, base + table[i].0)
  {
    if s in Matching(schema, table[..|table| - 1], base, prefix) {
      i := MatchingOnly(schema, table[..|table| - 1], base, prefix, s);
    } else {
      i := |table| - 1;
    }
  }

  lemma {:induction false} IndicesOnly(schema: Schema, item: nat, base: string, n: nat, s: string) returns (i: nat)
    requires ClosedSchema(schema) && item in schema && n <= |FIRST_INDICES| && s in Indices(schema, item, base, n)
    ensures i < n && s in Suggestions(schema, item, base + "." + FIRST_INDICES[i])
  {
    if s in Indices(schema, item, base, n - 1) {
      i := IndicesOnly(schema, item, base, n - 1, s);
    } else {
      i := n - 1;
    }
  }

  // --- Every completion leads somewhere ---

  /** A path leads to a definition: the variable alone, or the variable and a path that can be fetched. */
  ghost predicate Leads(schema: Schema, variables: seq<(string, nat)>, s: string, e: nat)
    requires ClosedSchema(schema) && forall i | 0 <= i < |variables| :: variables[i].1 in schema
  {
    exists i: nat ::
      && i < |variables|
      && (|| (s == variables[i].0 && e == variables[i].1)
          || (&& variables[i].0 + "." <= s
              && Defined(schema, variables[i].1, Explode(s[|variables[i].0| + 1..], '.'), 0) == Ok(e)))
  }

  /**
   * Without a trailing dot a completion leads to a definition; with one, it leads to a list or a complex
   * definition, possibly by reference.
   */
  ghost predicate Sensible(schema: Schema, variables: seq<(string, nat)>, s: string)
    requires ClosedSchema(schema) && forall i | 0 <= i < |variables| :: variables[i].1 in schema
  {
    if s != "" && s[|s| - 1] == '.'
    then exists e :: e in schema && Leads(schema, variables, s[..|s| - 1], e) && Opens(schema, e)
    else exists e :: Leads(schema, variables, s, e)
  }

  predicate PropertyName(name: string) {
    name != "" && DotFree(name) && !IsDigits(name)
  }

  /** Property names are not empty, have no dots, and are not mistaken for indices; variable names end in no dot. */
  ghost predicate WellNamed(schema: Schema, variables: seq<(string, nat)>) {
    && (forall d, i | d in schema && schema[d].ComplexDefinition? && 0 <= i < |schema[d].properties| ::
          PropertyName(schema[d].properties[i].0) &&
            Lookup(schema[d].properties, schema[d].properties[i].0) == Some(schema[d].properties[i].1))
    && (forall i | 0 <= i < |variables| :: variables[i].0 != "" && variables[i].0[|variables[i].0| - 1] != '.')
  }

  lemma SuggestionsSensible(schema: Schema, variables: seq<(string, nat)>, name: string, d: nat, s: string)
    requires ClosedSchema(schema) && forall i | 0 <= i < |variables| :: variables[i].1 in schema
    requires d in schema && Leads(schema, variables, name, d) && s in Suggestions(schema, d, name)
    requires name != "" && name[|name| - 1] != '.'
    ensures Sensible(schema, variables, s)
  {
    if s != name { assert s[..|s| - 1] == name; }
  }

  /** One more name after a path that leads to `d`. */
  lemma StepLeads(schema: Schema, variables: seq<(string, nat)>, i: nat, middle: seq<string>, d: nat, name: string,
                  e: nat)
    requires ClosedSchema(schema) && forall i | 0 <= i < |variables| :: variables[i].1 in schema
    requires i < |variables| && Defined(schema, variables[i].1, middle, 0) == Ok(d)
    requires forall part | part in middle :: DotFree(part)
    requires DotFree(name) && DefinitionStep(schema, d, name) == Some(e)
    ensures Leads(schema, variables, Implode([variables[i].0] + middle, '.') + "." + name, e)
  {
    var names := middle + [name];
    var x := variables[i].0;
    assert Defined(schema, d, [name], 0) == Ok(e) by {
      assert Defined(schema, e, [name], 1) == Ok(e);
    }
    DefinedInTwoParts(schema, variables[i].1, middle, [name], 0);
    ExplodeImplode(names, '.');
    ImplodeAppend([x] + middle, name, '.');
    assert [x] + middle + [name] == [x] + names && ([x] + names)[1..] == names;
    var s := Implode([x] + middle, '.') + "." + name;
    assert s == x + "." + Implode(names, '.');
    assert s[|x| + 1..] == Implode(names, '.');
  }

  lemma LastChar(base: string, name: string)
    requires name != "" && DotFree(name)
    ensures base + name != "" && (base + name)[|base + name| - 1] != '.'
  {
  }

  lemma OfferedSensible(schema: Schema, variables: seq<(string, nat)>, i: nat, middle: seq<string>, d: nat,
                        last: string, s: string)
    requires ClosedSchema(schema) && (forall i | 0 <= i < |variables| :: variables[i].1 in schema)
    requires WellNamed(schema, variables)
    requires i < |variables| && Defined(schema, variables[i].1, middle, 0) == Ok(d)
    requires forall part | part in middle :: DotFree(part)
    requires s in Offered(schema, d, Implode([variables[i].0] + middle, '.'), last)
    ensures Sensible(schema, variables, s)
  {
    var base := Implode([variables[i].0] + middle, '.');
    var t := Dereferenced(schema, d);
    var e := if schema[t].ListDefinition? && !IsDigits(last) then schema[t].item else t;
    if schema[e].ComplexDefinition? && s in Matching(schema, schema[e].properties, base + ".", last) {
      var k := MatchingOnly(schema, schema[e].properties, base + ".", last, s);
      var (name, p) := schema[e].properties[k];
      assert PropertyName(name);
      PropertyStep(schema, d, last, k);
      StepLeads(schema, variables, i, middle, d, name, p);
      assert base + "." + name == (base + ".") + name;
      LastChar(base + ".", name);
      SuggestionsSensible(schema, variables, base + "." + name, p, s);
    } else {
      var k := IndicesOnly(schema, schema[t].item, base, |FIRST_INDICES|, s);
      var index := FIRST_INDICES[k];
      assert IsDigits(index) && DotFree(index);
      assert DefinitionStep(schema, d, index) == Some(schema[t].item);
      StepLeads(schema, variables, i, middle, d, index, schema[t].item);
      LastChar(base + ".", index);
      assert base + "." + index == (base + ".") + index;
      SuggestionsSensible(schema, variables, base + "." + index, schema[t].item, s);
    }
  }

  lemma PropertyStep(schema: Schema, d: nat, last: string, k: nat)
    requires ClosedSchema(schema) && d in schema && WellNamed(schema, [])
    requires var t := Dereferenced(schema, d);
             var e := if schema[t].ListDefinition? && !IsDigits(last) then schema[t].item else t;
             schema[e].ComplexDefinition? && k < |schema[e].properties|
    ensures var t := Dereferenced(schema, d);
            var e := if schema[t].ListDefinition? && !IsDigits(last) then schema[t].item else t;
            DefinitionStep(schema, d, schema[e].properties[k].0) == Some(schema[e].properties[k].1)
  {
    var t := Dereferenced(schema, d);
    var e := if schema[t].ListDefinition? && !IsDigits(last) then schema[t].item else t;
    assert PropertyName(schema[e].properties[k].0);
  }

  /** Every completion leads where it says. */
  lemma CompletionsSensible(schema: Schema, variables: seq<(string, nat)>, partial: string, s: string)
    requires ClosedSchema(schema) && (forall i | 0 <= i < |variables| :: variables[i].1 in schema)
    requires WellNamed(schema, variables)
    requires s in Completions(schema, variables, partial)
    ensures Sensible(schema, variables, s)
  {
    hide *;
    if partial == "" {
      NameSensible(schema, variables, s);
    } else if Matching(schema, variables, "", partial) != [] {
      TopSensible(schema, variables, partial, s);
    } else {
      var i, middle, last, d := CompletionsBeyond(schema, variables, partial, s);
      OfferedSensible(schema, variables, i, middle, d, last, s);
    }
  }

  lemma NameSensible(schema: Schema, variables: seq<(string, nat)>, s: string)
    requires ClosedSchema(schema) && (forall i | 0 <= i < |variables| :: variables[i].1 in schema)
    requires WellNamed(schema, variables)
    requires s in Completions(schema, variables, "")
    ensures Sensible(schema, variables, s)
  {
    var i :| 0 <= i < |variables| && Names(variables)[i] == s;
    assert Leads(schema, variables, s, variables[i].1);
  }

  lemma TopSensible(schema: Schema, variables: seq<(string, nat)>, partial: string, s: string)
    requires ClosedSchema(schema) && (forall i | 0 <= i < |variables| :: variables[i].1 in schema)
    requires WellNamed(schema, variables)
    requires partial != "" && Matching(schema, variables, "", partial) != []
    requires s in Completions(schema, variables, partial)
    ensures Sensible(schema, variables, s)
  {
    TopOnly(schema, variables, partial);
    hide *;
    var name, d := TopSource(schema, variables, partial, s);
    SuggestionsSensible(schema, variables, name, d, s);
  }

  lemma TopSource(schema: Schema, variables: seq<(string, nat)>, partial: string, s: string)
    returns (name: string, d: nat)
    requires ClosedSchema(schema) && (forall i | 0 <= i < |variables| :: variables[i].1 in schema)
    requires WellNamed(schema, variables)
    requires s in Matching(schema, variables, "", partial)
    ensures d in schema && Leads(schema, variables, name, d) && s in Suggestions(schema, d, name)
    ensures name != "" && name[|name| - 1] != '.'
  {
    hide *;
    var i := MatchingOnly(schema, variables, "", partial, s);
    VariableLeads(schema, variables, i);
    name, d := variables[i].0, variables[i].1;
  }

  lemma TopOnly(schema: Schema, variables: seq<(string, nat)>, partial: string)
    requires ClosedSchema(schema) && (forall i | 0 <= i < |variables| :: variables[i].1 in schema)
    requires partial != "" && Matching(schema, variables, "", partial) != []
    ensures Completions(schema, variables, partial) == Matching(schema, variables, "", partial)
  {
    hide Parts, Middle, Offered, Defined, Matching;
  }

  lemma VariableLeads(schema: Schema, variables: seq<(string, nat)>, i: nat)
    requires ClosedSchema(schema) && (forall i | 0 <= i < |variables| :: variables[i].1 in schema)
    requires WellNamed(schema, variables)
    requires i < |variables|
    ensures Leads(schema, variables, variables[i].0, variables[i].1) && "" + variables[i].0 == variables[i].0
    ensures variables[i].0 != "" && variables[i].0[|variables[i].0| - 1] != '.'
  {
  }

  lemma CompletionsBeyond(schema: Schema, variables: seq<(string, nat)>, partial: string, s: string)
    returns (i: nat, middle: seq<string>, last: string, d: nat)
    requires ClosedSchema(schema) && forall i | 0 <= i < |variables| :: variables[i].1 in schema
    requires partial != "" && Matching(schema, variables, "", partial) == []
    requires s in Completions(schema, variables, partial)
    ensures i < |variables| && Defined(schema, variables[i].1, middle, 0) == Ok(d)
    ensures forall part | part in middle :: DotFree(part)
    ensures s in Offered(schema, d, Implode([variables[i].0] + middle, '.'), last)
  {
    hide Matching, Offered, Defined;
    PartsRejoin(partial);
    var (first, rest) := Parts(partial);
    i :| 0 <= i < |variables| && variables[i] == (first, Lookup(variables, first).value);
    middle, last := Middle(rest), rest[|rest| - 1];
    forall part | part in middle ensures DotFree(part) { assert part in rest; }
    d := Defined(schema, variables[i].1, middle, 0).value;
  }

  // --- Everything that matches is offered ---

  /** Either no global context, and then no colon at all, or a global context, which ends at the first colon. */
  predicate Context(context: string, names: seq<string>) {
    if context == "" then forall name | name in names :: ':' !in name
    else context[|context| - 1] == ':' && ':' !in context[..|context| - 1]
  }

  /**
   * Beyond the top level, every property that begins with the last name is offered, where the earlier names lead
   * through references and a list to a complex definition. A global context in front of the variable may hold dots.
   */
  lemma CompletionsComplete(schema: Schema, variables: seq<(string, nat)>, context: string, x: string,
                            middle: seq<string>, last: string, d: nat)
    requires ClosedSchema(schema) && forall i | 0 <= i < |variables| :: variables[i].1 in schema
    requires Lookup(variables, context + x).Some?
    requires Defined(schema, Lookup(variables, context + x).value, middle, 0) == Ok(d)
    requires Context(context, [x] + middle + [last]) && forall part | part in [x] + middle + [last] :: DotFree(part)
    requires middle == [] || Implode(middle, '.') != ""
    requires Matching(schema, variables, "", Implode([context + x] + middle + [last], '.')) == []
    ensures Completions(schema, variables, Implode([context + x] + middle + [last], '.')) ==
              Offered(schema, d, Implode([context + x] + middle, '.'), last)
    ensures var e := if schema[Dereferenced(schema, d)].ListDefinition? && !IsDigits(last)
                     then schema[Dereferenced(schema, d)].item else Dereferenced(schema, d);
            schema[e].ComplexDefinition? ==>
              forall k, s | 0 <= k < |schema[e].properties| && Begins(schema[e].properties[k].0, last) &&
                            s in Suggestions(schema, schema[e].properties[k].1,
                                             Implode([context + x] + middle, '.') + "." + schema[e].properties[k].0) ::
                s in Completions(schema, variables, Implode([context + x] + middle + [last], '.'))
  {
    var partial := Implode([context + x] + middle + [last], '.');
    PartsOf(context, x, middle, last);
    var e := if schema[Dereferenced(schema, d)].ListDefinition? && !IsDigits(last)
             then schema[Dereferenced(schema, d)].item else Dereferenced(schema, d);
    if schema[e].ComplexDefinition? {
      MatchingAll(schema, schema[e].properties, Implode([context + x] + middle, '.'), last);
    }
  }

  lemma PartsOf(context: string, x: string, middle: seq<string>, last: string)
    requires Context(context, [x] + middle + [last]) && forall part | part in [x] + middle + [last] :: DotFree(part)
    requires middle == [] || Implode(middle, '.') != ""
    ensures var partial := Implode([context + x] + middle + [last], '.');
            partial != "" && Parts(partial) == (context + x, middle + [last]) && Middle(middle + [last]) == middle
  {
    var names := [x] + (middle + [last]);
    assert [x] + middle + [last] == names && [context + x] + middle + [last] == [context + x] + (middle + [last]);
    assert (middle + [last])[..|middle|] == middle;
    ImplodeFront(context, x, middle + [last]);
    if context == "" {
      PartsPlain(names);
      assert context + x == x && context + Implode(names, '.') == Implode(names, '.');
      ImplodeAppend([x] + middle, last, '.');
    } else {
      PartsGlobal(context, names);
    }
  }

  lemma PartsPlain(names: seq<string>)
    requires names != [] && forall name | name in names :: DotFree(name) && ':' !in name
    ensures Parts(Implode(names, '.')) == (names[0], names[1..])
  {
    NoColon(names);
    ExplodeImplode(names, '.');
  }

  lemma PartsGlobal(context: string, names: seq<string>)
    requires names != [] && forall name | name in names :: DotFree(name)
    requires context != "" && context[|context| - 1] == ':' && ':' !in context[..|context| - 1]
    ensures Parts(context + Implode(names, '.')) == (context + names[0], names[1..])
  {
    ExplodeImplode(names, '.');
    var head := context[..|context| - 1];
    assert context == head + ":";
    PositionFirst(head, Implode(names, '.'), ':');
    assert context + Implode(names, '.') == head + [':'] + Implode(names, '.');
    assert (context + Implode(names, '.'))[|context|..] == Implode(names, '.');
    assert (context + Implode(names, '.'))[..|context|] == context;
  }

  lemma ImplodeFront(context: string, x: string, rest: seq<string>)
    ensures Implode([context + x] + rest, '.') == context + Implode([x] + rest, '.')
  {
    assert ([context + x] + rest)[1..] == rest == ([x] + rest)[1..];
  }

  lemma MatchingAll(schema: Schema, table: seq<(string, nat)>, base: string, prefix: string)
    requires ClosedSchema(schema) && forall i | 0 <= i < |table| :: table[i].1 in schema
    ensures forall k, s | 0 <= k < |table| && Begins(table[k].0, prefix) &&
                          s in Suggestions(schema, table[k].1, base + "." + table[k].0) ::
              s in Matching(schema, table, base + ".", prefix)
  {
    forall k, s | 0 <= k < |table| && Begins(table[k].0, prefix) &&
                  s in Suggestions(schema, table[k].1, base + "." + table[k].0)
      ensures s in Matching(schema, table, base + ".", prefix)
    {
      assert base + "." + table[k].0 == (base + ".") + table[k].0;
      MatchingHas(schema, table, base + ".", prefix, k, s);
    }
  }

  lemma {:induction false} NoColon(parts: seq<string>)
    requires forall part | part in parts :: ':' !in part
    ensures Position(Implode(parts, '.'), ':').None?
  {
    if |parts| > 1 {
      NoColon(parts[1..]);
      assert ':' !in parts[0];
      PositionNone(Implode(parts[1..], '.'), ':');
      PositionNone(parts[0] + "." + Implode(parts[1..], '.'), ':');
    } else if |parts| == 1 {
      PositionNone(parts[0], ':');
    }
  }

  // --- Literal cases ---

  const UPPER := "ABCDEFGHIJKLMNOPQRSTUVWXYZ"
  const LOWER := "abcdefghijklmnopqrstuvwxyz"

  /** A letter agrees with itself in the other case; all other characters agree with themselves only. */
  ghost predicate SameLetter(c: char, d: char) {
    || c == d
    || exists i :: 0 <= i < 26 && ((c == UPPER[i] && d == LOWER[i]) || (c == LOWER[i] && d == UPPER[i]))
  }

  lemma CaseIgnored(c: char, d: char)
    ensures LowerChar(c) == LowerChar(d) <==> SameLetter(c, d)
  {
    if c != d {
      if LowerChar(c) == LowerChar(d) {
        LowerAgrees(c, d);
        hide LowerChar;
        if 'A' <= c <= 'Z' && d == c - 'A' + 'a' { OtherCase(c, d); } else { OtherCase(d, c); }
      } else if SameLetter(c, d) {
        var i :| 0 <= i < 26 && ((c == UPPER[i] && d == LOWER[i]) || (c == LOWER[i] && d == UPPER[i]));
        LetterLower(i);
        assert false;
      }
    }
  }

  lemma LowerAgrees(c: char, d: char)
    requires LowerChar(c) == LowerChar(d) && c != d
    ensures ('A' <= c <= 'Z' && d == c - 'A' + 'a') || ('A' <= d <= 'Z' && c == d - 'A' + 'a')
  {
  }

  lemma LetterLower(i: nat)
    requires i < 26
    ensures LowerChar(UPPER[i]) == LowerChar(LOWER[i])
  {
    LetterAt(i);
  }

  lemma OtherCase(c: char, d: char)
    requires 'A' <= c <= 'Z' && d == c - 'A' + 'a'
    ensures SameLetter(c, d) && SameLetter(d, c)
  {
    var i := (c - 'A') as nat;
    LetterAt(i);
    assert c == UPPER[i] && d == LOWER[i];
  }

  /** A name begins with what agrees with its first characters, and with nothing longer than itself. */
  lemma BeginsIgnoresCase(front: string, rest: string, prefix: string)
    ensures |front| == |prefix| ==>
              (Begins(front + rest, prefix) <==> forall i | 0 <= i < |prefix| :: SameLetter(front[i], prefix[i]))
    ensures |front| < |prefix| ==> !Begins(front, prefix)
  {
    if |front| == |prefix| {
      forall i | 0 <= i < |prefix|
        ensures LowerChar((front + rest)[i]) == LowerChar(prefix[i]) <==> SameLetter(front[i], prefix[i])
      {
        CaseIgnored(front[i], prefix[i]);
      }
    }
  }

  lemma LetterAt(i: nat)
    requires i < 26
    ensures UPPER[i] == 'A' + i as char && LOWER[i] == 'a' + i as char
  {
  }

  /** The empty path is completed by the names of all variables, in order. */
  lemma EmptyPathOffersAll(schema: Schema, variables: seq<(string, nat)>)
    requires ClosedSchema(schema) && forall i | 0 <= i < |variables| :: variables[i].1 in schema
    ensures var offered := Completions(schema, variables, "");
            |offered| == |variables| && forall i | 0 <= i < |variables| :: offered[i] == variables[i].0
  {
  }

  /** Of a list with many items the indices 0 to 2 are offered for an empty last name, and no others. */
  lemma IndicesOffered(schema: Schema, d: nat, base: string, last: string)
    requires ClosedSchema(schema) && d in schema && schema[d].ListDefinition?
    ensures last == "" && !schema[d].single ==>
              && base + ".0" in Offered(schema, d, base, last) && base + ".1" in Offered(schema, d, base, last)
              && base + ".2" in Offered(schema, d, base, last)
    ensures (last != "" || schema[d].single) && !schema[schema[d].item].ComplexDefinition? ==>
              Offered(schema, d, base, last) == []
  {
    var item := schema[d].item;
    if last == "" && !schema[d].single {
      IndexOffered(schema, item, base, "0", 1);
      IndexOffered(schema, item, base, "1", 2);
      IndexOffered(schema, item, base, "2", 3);
      IndicesGrow(schema, item, base, 1, 3);
      IndicesGrow(schema, item, base, 2, 3);
      assert base + "." + "0" == base + ".0" && base + "." + "1" == base + ".1" && base + "." + "2" == base + ".2";
    }
  }

  lemma IndexOffered(schema: Schema, item: nat, base: string, index: string, n: nat)
    requires ClosedSchema(schema) && item in schema && 0 < n <= 3 && index == ["0", "1", "2"][n - 1]
    ensures base + "." + index in Indices(schema, item, base, n)
  {
    assert (base + "." + index) in Suggestions(schema, item, base + "." + index);
  }

  lemma {:induction false} IndicesGrow(schema: Schema, item: nat, base: string, m: nat, n: nat)
    requires ClosedSchema(schema) && item in schema && m <= n <= 3
    ensures Indices(schema, item, base, m) <= Indices(schema, item, base, n)
  {
    if m < n { IndicesGrow(schema, item, base, m, n - 1); }
  }
}
