/** Following a path through data, and through definitions: a path that finds data finds it where the types say. */
module DataFetcher {
  import opened Decimals
  import opened Wrappers
  import opened DelimitedText
  import opened TypedData

  datatype Problem = MissingData | InvalidArgument

  /** What went wrong, and the part of the path up to the name where it did. */
  datatype FetchError = FetchError(problem: Problem, selector: seq<string>)

  // --- One name ---

  function Translated(store: Store, v: nat, langcode: Option<string>): nat
    requires v in store
  {
    if langcode.Some? && langcode.value in store[v].translations then store[v].translations[langcode.value] else v
  }

  /** The property of complex data; lists and other data have none. */
  function PropertyOf(store: Store, v: nat, name: string): Result<nat, Problem>
    requires v in store
  {
    match store[v].value
    case Complex(properties) => if name in properties then Ok(properties[name]) else Err(InvalidArgument)
    case EmptyComplex => Err(MissingData)
    case _ => Err(InvalidArgument)
  }

  /** Where one name leads from a datum that is not a reference. */
  function Selected(store: Store, v: nat, name: string): Result<nat, Problem>
    requires ClosedStore(store) && v in store
  {
    match store[v].value
    case List(items) =>
      if IsDigits(name) then
        match ItemNamed(items, name)
        case None => Err(MissingData)
        case Some(item) => Ok(item)
      else if items == [] then Err(InvalidArgument)
      else PropertyOf(store, items[0], name)
    case _ => PropertyOf(store, v, name)
  }

  function DataStep(store: Store, v: nat, name: string, langcode: Option<string>): (r: Result<nat, Problem>)
    requires ClosedStore(store) && v in store
    ensures r.Ok? ==> r.value in store
  {
    match store[v].value
    case Reference(None) => Err(MissingData)
    case Reference(Some(target)) => Selected(store, Translated(store, target, langcode), name)
    case _ => Selected(store, Translated(store, v, langcode), name)
  }

  function Dereferenced(schema: Schema, d: nat): (r: nat)
    requires ClosedSchema(schema) && d in schema
    ensures r in schema
  {
    if schema[d].ReferenceDefinition? then schema[d].target else d
  }

  /** Where one name leads from a definition. */
  function DefinitionStep(schema: Schema, d: nat, name: string): (r: Option<nat>)
    requires ClosedSchema(schema) && d in schema
    ensures r.Some? ==> r.value in schema
  {
    var t := Dereferenced(schema, d);
    var e := if schema[t].ListDefinition? && !IsDigits(name) then schema[t].item else t;
    match schema[e]
    case ComplexDefinition(properties) => Lookup(properties, name)
    case ListDefinition(item, _) => Some(item)
    case _ => None
  }

  // --- Whole paths ---

  /** Follows the names from number `i` on. */
  function Fetched(store: Store, v: nat, path: seq<string>, i: nat, langcode: Option<string>)
    : (r: Result<nat, FetchError>)
    requires ClosedStore(store) && v in store && i <= |path|
    ensures r.Ok? ==> r.value in store
    decreases |path| - i
  {
    if i == |path| then Ok(v)
    else
      match DataStep(store, v, path[i], langcode)
      case Ok(w) => Fetched(store, w, path, i + 1, langcode)
      case Err(problem) => Err(FetchError(problem, path[..i + 1]))
  }

  function Defined(schema: Schema, d: nat, path: seq<string>, i: nat): (r: Result<nat, FetchError>)
    requires ClosedSchema(schema) && d in schema && i <= |path|
    ensures r.Ok? ==> r.value in schema
    decreases |path| - i
  {
    if i == |path| then Ok(d)
    else
      match DefinitionStep(schema, d, path[i])
      case Some(e) => Defined(schema, e, path, i + 1)
      case None => Err(FetchError(InvalidArgument, path[..i + 1]))
  }

  method FetchDataBySubPaths(store: Store, start: nat, path: seq<string>, langcode: Option<string>)
    returns (r: Result<nat, FetchError>)
    requires ClosedStore(store) && start in store
    ensures r == Fetched(store, start, path, 0, langcode)
  {
    var data := start;
    var i := 0;
    while i < |path|
      invariant i <= |path| && data in store
      invariant Fetched(store, start, path, 0, langcode) == Fetched(store, data, path, i, langcode)
    {
      var next := FollowName(store, data, path[i], langcode);
      if next.Err? {
        return Err(FetchError(next.error, path[..i + 1]));
      }
      data := next.value;
      i := i + 1;
    }
    r := Ok(data);
  }

  /** One turn of the loop: follow a reference, choose the language, forward to the first item, and drill down. */
  method FollowName(store: Store, start: nat, name: string, langcode: Option<string>) returns (r: Result<nat, Problem>)
    requires ClosedStore(store) && start in store
    ensures r == DataStep(store, start, name, langcode)
  {
    var data := start;
    if store[data].value.Reference? {
      if store[data].value.target.None? {
        return Err(MissingData);
      }
      data := store[data].value.target.value;
    }
    if langcode.Some? && langcode.value in store[data].translations {
      data := store[data].translations[langcode.value];
    }
    r := DrillDown(store, data, name);
  }

  method DrillDown(store: Store, start: nat, name: string) returns (r: Result<nat, Problem>)
    requires ClosedStore(store) && start in store
    ensures r == Selected(store, start, name)
  {
    var data, forwarded := start, false;
    if store[data].value.List? && !IsDigits(name) {
      if store[data].value.items == [] {
        return Err(InvalidArgument);
      }
      data, forwarded := store[data].value.items[0], true;
    }
    match store[data].value {
      case List(items) =>
        if forwarded {
          return Err(InvalidArgument);
        }
        var item := ItemNamed(items, name);
        return if item.None? then Err(MissingData) else Ok(item.value);
      case Complex(properties) =>
        return if name in properties then Ok(properties[name]) else Err(InvalidArgument);
      case EmptyComplex =>
        return Err(MissingData);
      case _ =>
        return Err(InvalidArgument);
    }
  }

  method FetchDefinitionBySubPaths(schema: Schema, start: nat, path: seq<string>) returns (r: Result<nat, FetchError>)
    requires ClosedSchema(schema) && start in schema
    ensures r == Defined(schema, start, path, 0)
  {
    var definition := start;
    var i := 0;
    while i < |path|
      invariant i <= |path| && definition in schema
      invariant Defined(schema, start, path, 0) == Defined(schema, definition, path, i)
    {
      if schema[definition].ReferenceDefinition? {
        definition := schema[definition].target;
      }
      if schema[definition].ListDefinition? && !IsDigits(path[i]) {
        definition := schema[definition].item;
      }
      var next: Option<nat>;
      match schema[definition] {
        case ComplexDefinition(properties) =>
          next := Lookup(properties, path[i]);
        case ListDefinition(item, _) =>
          next := Some(item);
        case _ =>
          next := None;
      }
      if next.None? {
        return Err(FetchError(InvalidArgument, path[..i + 1]));
      }
      definition := next.value;
      i := i + 1;
    }
    r := Ok(definition);
  }

  method FetchDataByPropertyPath(store: Store, start: nat, propertyPath: string, langcode: Option<string>)
    returns (r: Result<nat, FetchError>)
    requires ClosedStore(store) && start in store
    ensures r == Fetched(store, start, Explode(propertyPath, '.'), 0, langcode)
  {
    r := FetchDataBySubPaths(store, start, Explode(propertyPath, '.'), langcode);
  }

  method FetchDefinitionByPropertyPath(schema: Schema, start: nat, propertyPath: string)
    returns (r: Result<nat, FetchError>)
    requires ClosedSchema(schema) && start in schema
    ensures r == Defined(schema, start, Explode(propertyPath, '.'), 0)
  {
    r := FetchDefinitionBySubPaths(schema, start, Explode(propertyPath, '.'));
  }

  // --- Type soundness ---

  lemma TranslationConforms(store: Store, schema: Schema, pairs: set<(nat, nat)>, v: nat, d: nat,
                            langcode: Option<string>)
    requires Conformance(store, schema, pairs) && (v, d) in pairs
    ensures (Translated(store, v, langcode), d) in pairs
  {
  }

  lemma PropertyConforms(store: Store, schema: Schema, pairs: set<(nat, nat)>, v: nat, d: nat, name: string)
    requires Conformance(store, schema, pairs) && (v, d) in pairs && PropertyOf(store, v, name).Ok?
    ensures schema[d].ComplexDefinition?
    ensures Lookup(schema[d].properties, name).Some?
    ensures (PropertyOf(store, v, name).value, Lookup(schema[d].properties, name).value) in pairs
  {
    assert ConformsAt(store, schema, pairs, v, d);
  }

  lemma SelectedConforms(store: Store, schema: Schema, pairs: set<(nat, nat)>, v: nat, d: nat, name: string)
    requires ClosedStore(store) && ClosedSchema(schema) && Conformance(store, schema, pairs) && (v, d) in pairs
    requires Selected(store, v, name).Ok? && !store[v].value.Reference?
    ensures DefinitionStep(schema, d, name).Some?
    ensures (Selected(store, v, name).value, DefinitionStep(schema, d, name).value) in pairs
  {
    assert ConformsAt(store, schema, pairs, v, d);
    if store[v].value.List? {
      if !IsDigits(name) {
        assert (store[v].value.items[0], schema[d].item) in pairs;
        PropertyConforms(store, schema, pairs, store[v].value.items[0], schema[d].item, name);
      }
    } else {
      PropertyConforms(store, schema, pairs, v, d, name);
    }
  }

  /** Where a name leads from conforming data, the definition has it too, and what is found conforms to it. */
  lemma StepConforms(store: Store, schema: Schema, pairs: set<(nat, nat)>, v: nat, d: nat, name: string,
                     langcode: Option<string>)
    requires ClosedStore(store) && ClosedSchema(schema) && Conformance(store, schema, pairs) && (v, d) in pairs
    requires DataStep(store, v, name, langcode).Ok?
    ensures DefinitionStep(schema, d, name).Some?
    ensures (DataStep(store, v, name, langcode).value, DefinitionStep(schema, d, name).value) in pairs
  {
    assert ConformsAt(store, schema, pairs, v, d);
    var t := Dereferenced(schema, d);
    var target := if store[v].value.Reference? then store[v].value.target.value else v;
    assert (target, t) in pairs;
    TranslationConforms(store, schema, pairs, target, t, langcode);
    var w := Translated(store, target, langcode);
    NoReferenceSelected(store, w, name);
    SelectedConforms(store, schema, pairs, w, t, name);
    assert ConformsAt(store, schema, pairs, w, t);
    assert Dereferenced(schema, t) == t;
  }

  lemma NoReferenceSelected(store: Store, v: nat, name: string)
    requires ClosedStore(store) && v in store && Selected(store, v, name).Ok?
    ensures !store[v].value.Reference?
  {
  }

  lemma {:induction false} FetchedConforms(store: Store, schema: Schema, pairs: set<(nat, nat)>, v: nat, d: nat,
                                           path: seq<string>, i: nat, langcode: Option<string>)
    requires ClosedStore(store) && ClosedSchema(schema) && Conformance(store, schema, pairs) && (v, d) in pairs
    requires i <= |path| && Fetched(store, v, path, i, langcode).Ok?
    ensures Defined(schema, d, path, i).Ok?
    ensures (Fetched(store, v, path, i, langcode).value, Defined(schema, d, path, i).value) in pairs
    decreases |path| - i
  {
    if i < |path| {
      StepConforms(store, schema, pairs, v, d, path[i], langcode);
      FetchedConforms(store, schema, pairs, DataStep(store, v, path[i], langcode).value,
                      DefinitionStep(schema, d, path[i]).value, path, i + 1, langcode);
    }
  }

  /**
   * Type soundness: on data that conforms to a definition, every path that finds data is defined, and the data
   * found conforms to the definition found.
   */
  lemma PathTypesAreSound(store: Store, schema: Schema, v: nat, d: nat, path: seq<string>, langcode: Option<string>)
    requires ClosedStore(store) && ClosedSchema(schema) && Conforms(store, schema, v, d) && v in store && d in schema
    requires Fetched(store, v, path, 0, langcode).Ok?
    ensures Defined(schema, d, path, 0).Ok?
    ensures Conforms(store, schema, Fetched(store, v, path, 0, langcode).value, Defined(schema, d, path, 0).value)
  {
    var pairs :| Conformance(store, schema, pairs) && (v, d) in pairs;
    FetchedConforms(store, schema, pairs, v, d, path, 0, langcode);
  }

  /** The second half of a path starts where the first half led. */
  lemma {:induction false} DefinedInTwoParts(schema: Schema, d: nat, first: seq<string>, second: seq<string>, i: nat)
    requires ClosedSchema(schema) && d in schema && i <= |first|
    requires Defined(schema, d, first, i).Ok?
    ensures Defined(schema, d, first + second, i).Ok? <==>
              Defined(schema, Defined(schema, d, first, i).value, second, 0).Ok?
    ensures Defined(schema, d, first + second, i).Ok? ==>
              Defined(schema, d, first + second, i).value ==
              Defined(schema, Defined(schema, d, first, i).value, second, 0).value
    decreases |first| - i
  {
    if i < |first| {
      assert (first + second)[i] == first[i];
      DefinedInTwoParts(schema, DefinitionStep(schema, d, first[i]).value, first, second, i + 1);
    } else {
      DefinedShifted(schema, d, first, second, 0);
    }
  }

  lemma {:induction false} DefinedShifted(schema: Schema, d: nat, first: seq<string>, second: seq<string>, j: nat)
    requires ClosedSchema(schema) && d in schema && j <= |second|
    ensures Defined(schema, d, first + second, |first| + j).Ok? <==> Defined(schema, d, second, j).Ok?
    ensures Defined(schema, d, second, j).Ok? ==>
              Defined(schema, d, first + second, |first| + j).value == Defined(schema, d, second, j).value
    decreases |second| - j
  {
    if j < |second| {
      assert (first + second)[|first| + j] == second[j];
      var next := DefinitionStep(schema, d, second[j]);
      if next.Some? { DefinedShifted(schema, next.value, first, second, j + 1); }
    }
  }

  // --- How a defined path can fail ---

  /** The datum that a name is looked up in: behind a reference, and in the language asked for. */
  function Subject(store: Store, v: nat, langcode: Option<string>): Option<nat>
    requires ClosedStore(store) && v in store
  {
    match store[v].value
    case Reference(None) => None
    case Reference(Some(target)) => Some(Translated(store, target, langcode))
    case _ => Some(Translated(store, v, langcode))
  }

  /** Complex data with properties, but not this one. */
  predicate LacksProperty(value: Value, name: string) {
    value.Complex? && name !in value.properties
  }

  /**
   * The data refuse a name: complex data without that property, or a list that is asked for a property while it is
   * empty, begins with another list, or begins with complex data without that property.
   */
  predicate Refuses(store: Store, v: nat, name: string, langcode: Option<string>)
    requires ClosedStore(store) && v in store
  {
    var subject := Subject(store, v, langcode);
    && subject.Some?
    && match store[subject.value].value
       case List(items) =>
         !IsDigits(name) && (items == [] || store[items[0]].value.List? || LacksProperty(store[items[0]].value, name))
       case value => LacksProperty(value, name)
  }

  /**
   * The data end before a name: at a reference to nothing, complex data without anything behind it, or a list too
   * short.
   */
  predicate Misses(store: Store, v: nat, name: string, langcode: Option<string>)
    requires ClosedStore(store) && v in store
  {
    var subject := Subject(store, v, langcode);
    || subject.None?
    || match store[subject.value].value
       case List(items) =>
         if IsDigits(name) then ItemNamed(items, name).None? else items != [] && store[items[0]].value.EmptyComplex?
       case value => value.EmptyComplex?
  }

  /** Whether a name leads nowhere, and with which problem. */
  predicate Stops(store: Store, v: nat, name: string, langcode: Option<string>, problem: Problem)
    requires ClosedStore(store) && v in store
  {
    if problem.InvalidArgument? then Refuses(store, v, name, langcode) else Misses(store, v, name, langcode)
  }

  /** Following the path leads to a datum at which name number `k` leads nowhere. */
  ghost predicate StopsAt(store: Store, v: nat, path: seq<string>, langcode: Option<string>, problem: Problem, k: nat)
    requires ClosedStore(store) && v in store
  {
    && k < |path|
    && var reached := Fetched(store, v, path[..k], 0, langcode);
       reached.Ok? && Stops(store, reached.value, path[k], langcode, problem)
  }

  /** Where the definition has a name, conforming data fail in exactly these two ways. */
  lemma StepFails(store: Store, schema: Schema, pairs: set<(nat, nat)>, v: nat, d: nat, name: string,
                  langcode: Option<string>)
    requires ClosedStore(store) && ClosedSchema(schema) && Conformance(store, schema, pairs) && (v, d) in pairs
    requires DefinitionStep(schema, d, name).Some?
    ensures forall problem ::
              DataStep(store, v, name, langcode) == Err(problem) <==> Stops(store, v, name, langcode, problem)
  {
    assert ConformsAt(store, schema, pairs, v, d);
    var subject := Subject(store, v, langcode);
    if subject.Some? {
      var t := Dereferenced(schema, d);
      var target := if store[v].value.Reference? then store[v].value.target.value else v;
      assert (target, t) in pairs;
      TranslationConforms(store, schema, pairs, target, t, langcode);
      SelectedFails(store, schema, pairs, subject.value, t, name);
    }
  }

  lemma SelectedFails(store: Store, schema: Schema, pairs: set<(nat, nat)>, w: nat, t: nat, name: string)
    requires ClosedStore(store) && ClosedSchema(schema) && Conformance(store, schema, pairs) && (w, t) in pairs
    requires var e := if schema[t].ListDefinition? && !IsDigits(name) then schema[t].item else t;
             schema[e].ComplexDefinition? || schema[e].ListDefinition?
    ensures Selected(store, w, name) == Err(InvalidArgument) <==>
              match store[w].value
              case List(items) =>
                !IsDigits(name) && (items == [] || store[items[0]].value.List? ||
                  LacksProperty(store[items[0]].value, name))
              case value => LacksProperty(value, name)
    ensures Selected(store, w, name) == Err(MissingData) <==>
              match store[w].value
              case List(items) =>
                if IsDigits(name) then ItemNamed(items, name).None?
                  else items != [] && store[items[0]].value.EmptyComplex?
              case value => value.EmptyComplex?
  {
    assert ConformsAt(store, schema, pairs, w, t);
    match store[w].value
    case List(items) =>
      if !IsDigits(name) && items != [] {
        assert (items[0], schema[t].item) in pairs;
        assert ConformsAt(store, schema, pairs, items[0], schema[t].item);
      }
    case _ =>
  }

  /** Name number `k` is where following a path fails. */
  lemma {:induction false} FetchFailsAt(store: Store, v: nat, path: seq<string>, i: nat, langcode: Option<string>)
    returns (k: nat)
    requires ClosedStore(store) && v in store && i <= |path| && Fetched(store, v, path, i, langcode).Err?
    ensures i <= k < |path|
    ensures var reached := Fetched(store, v, path[..k], i, langcode);
            && reached.Ok? && DataStep(store, reached.value, path[k], langcode).Err?
            && Fetched(store, v, path, i, langcode)
                 == Err(FetchError(DataStep(store, reached.value, path[k], langcode).error, path[..k + 1]))
    decreases |path| - i
  {
    var next := DataStep(store, v, path[i], langcode);
    if next.Err? {
      k := i;
    } else {
      k := FetchFailsAt(store, next.value, path, i + 1, langcode);
      assert path[..k][i] == path[i];
    }
  }

  lemma {:induction false} FetchedFrom(store: Store, v: nat, path: seq<string>, i: nat, k: nat,
                                       langcode: Option<string>)
    requires ClosedStore(store) && v in store && i <= k <= |path| && Fetched(store, v, path[..k], i, langcode).Ok?
    ensures Fetched(store, v, path, i, langcode)
              == Fetched(store, Fetched(store, v, path[..k], i, langcode).value, path, k, langcode)
    decreases k - i
  {
    if i < k {
      assert path[..k][i] == path[i];
      FetchedFrom(store, DataStep(store, v, path[i], langcode).value, path, i + 1, k, langcode);
    }
  }

  /** What is reached on a defined path conforms to a definition that has the next name. */
  lemma ReachedHasNext(store: Store, schema: Schema, pairs: set<(nat, nat)>, v: nat, d: nat, path: seq<string>, k: nat,
                       langcode: Option<string>) returns (e: nat)
    requires ClosedStore(store) && ClosedSchema(schema) && Conformance(store, schema, pairs) && (v, d) in pairs
    requires k < |path| && Defined(schema, d, path, 0).Ok? && Fetched(store, v, path[..k], 0, langcode).Ok?
    ensures (Fetched(store, v, path[..k], 0, langcode).value, e) in pairs && e in schema
    ensures DefinitionStep(schema, e, path[k]).Some?
  {
    FetchedConforms(store, schema, pairs, v, d, path[..k], 0, langcode);
    e := Defined(schema, d, path[..k], 0).value;
    assert path == path[..k] + path[k..];
    DefinedInTwoParts(schema, d, path[..k], path[k..], 0);
    assert path[k..][0] == path[k];
  }

  lemma StopsWhereFetchFails(store: Store, schema: Schema, pairs: set<(nat, nat)>, v: nat, d: nat, path: seq<string>,
                             langcode: Option<string>, problem: Problem, k: nat)
    requires ClosedStore(store) && ClosedSchema(schema) && Conformance(store, schema, pairs) && (v, d) in pairs
    requires k < |path| && Defined(schema, d, path, 0).Ok? && Fetched(store, v, path[..k], 0, langcode).Ok?
    ensures StopsAt(store, v, path, langcode, problem, k) <==>
              DataStep(store, Fetched(store, v, path[..k], 0, langcode).value, path[k], langcode) == Err(problem)
    ensures StopsAt(store, v, path, langcode, problem, k) ==>
              Fetched(store, v, path, 0, langcode) == Err(FetchError(problem, path[..k + 1]))
  {
    var e := ReachedHasNext(store, schema, pairs, v, d, path, k, langcode);
    hide DataStep, Stops, DefinitionStep, ClosedStore, ClosedSchema, Defined;
    StepFails(store, schema, pairs, Fetched(store, v, path[..k], 0, langcode).value, e, path[k], langcode);
    FetchedFrom(store, v, path, 0, k, langcode);
  }

  /**
   * On conforming data a defined path ends in an invalid argument exactly if it meets data that refuse a name, and
   * in missing data exactly if it meets data that end before one. Otherwise it finds its data.
   */
  lemma DefinedPathFails(store: Store, schema: Schema, v: nat, d: nat, path: seq<string>, langcode: Option<string>,
                         problem: Problem)
    requires ClosedStore(store) && ClosedSchema(schema) && Conforms(store, schema, v, d) && v in store && d in schema
    requires Defined(schema, d, path, 0).Ok?
    ensures var r := Fetched(store, v, path, 0, langcode);
            && (r.Err? && r.error.problem == problem <==>
                  exists k: nat :: StopsAt(store, v, path, langcode, problem, k))
            && forall k: nat | StopsAt(store, v, path, langcode, problem, k) ::
                 r == Err(FetchError(problem, path[..k + 1]))
  {
    var pairs :| Conformance(store, schema, pairs) && (v, d) in pairs;
    hide *;
    var r := Fetched(store, v, path, 0, langcode);
    if r.Err? && r.error.problem == problem {
      var k := FetchFailsAt(store, v, path, 0, langcode);
      StopsWhereFetchFails(store, schema, pairs, v, d, path, langcode, problem, k);
    }
    forall k: nat | StopsAt(store, v, path, langcode, problem, k)
      ensures r == Err(FetchError(problem, path[..k + 1]))
    {
      StoppedPath(store, v, path, langcode, problem, k);
      StopsWhereFetchFails(store, schema, pairs, v, d, path, langcode, problem, k);
    }
  }

  lemma StoppedPath(store: Store, v: nat, path: seq<string>, langcode: Option<string>, problem: Problem, k: nat)
    requires ClosedStore(store) && v in store && StopsAt(store, v, path, langcode, problem, k)
    ensures k < |path| && Fetched(store, v, path[..k], 0, langcode).Ok?
  {
  }

  /** A concrete defined path: an empty list asked for a property. */
  lemma EmptyListIsInvalid(name: string, langcode: Option<string>)
    requires !IsDigits(name)
    ensures var schema: Schema :=
              map[0 := ListDefinition(1, false), 1 := ComplexDefinition([(name, 2)]), 2 := PrimitiveDefinition];
            var store: Store := map[0 := Datum(List([]), map[])];
            && ClosedSchema(schema) && ClosedStore(store) && Conforms(store, schema, 0, 0)
            && Defined(schema, 0, [name], 0) == Ok(2)
            && Fetched(store, 0, [name], 0, langcode) == Err(FetchError(InvalidArgument, [name]))
  {
    var schema: Schema :=
      map[0 := ListDefinition(1, false), 1 := ComplexDefinition([(name, 2)]), 2 := PrimitiveDefinition];
    var store: Store := map[0 := Datum(List([]), map[])];
    var pairs := {(0 as nat, 0 as nat)};
    assert Conformance(store, schema, pairs) && (0, 0) in pairs;
    assert DefinitionStep(schema, 0, name) == Some(2);
    assert Defined(schema, 2, [name], 1) == Ok(2);
    assert [name][..1] == [name];
  }

  // --- What one name finds, by the data it meets ---

  /** The data have no translation into the language asked for, if any is. */
  predicate Untranslated(datum: Datum, langcode: Option<string>) {
    langcode.None? || langcode.value !in datum.translations
  }

  /** A number finds the item with that index, and misses beyond the end. */
  lemma ItemIsFound(store: Store, v: nat, k: nat, langcode: Option<string>)
    requires ClosedStore(store) && v in store && store[v].value.List? && Untranslated(store[v], langcode)
    ensures var items := store[v].value.items;
            DataStep(store, v, Decimal(k), langcode) == if k < |items| then Ok(items[k]) else Err(MissingData)
  {
    NumberedItem(store[v].value.items, k);
  }

  /** A name finds the property of complex data, and of the first item of a list. */
  lemma PropertyIsFound(store: Store, v: nat, name: string, langcode: Option<string>)
    requires ClosedStore(store) && v in store && Untranslated(store[v], langcode)
    ensures store[v].value.Complex? && name in store[v].value.properties ==>
              DataStep(store, v, name, langcode) == Ok(store[v].value.properties[name])
    ensures store[v].value.List? && store[v].value.items != [] && !IsDigits(name) ==>
              var first := store[store[v].value.items[0]].value;
              first.Complex? && name in first.properties ==>
                DataStep(store, v, name, langcode) == Ok(first.properties[name])
  {
  }

  /** Names that data do not have, and names asked of other data, are refused; nothing behind complex data is a miss. */
  lemma OtherNames(store: Store, v: nat, name: string, langcode: Option<string>)
    requires ClosedStore(store) && v in store && Untranslated(store[v], langcode)
    ensures store[v].value.Primitive? || (store[v].value.Complex? && name !in store[v].value.properties) ==>
              DataStep(store, v, name, langcode) == Err(InvalidArgument)
    ensures store[v].value.EmptyComplex? ==> DataStep(store, v, name, langcode) == Err(MissingData)
    ensures store[v].value == List([]) && !IsDigits(name) ==>
              DataStep(store, v, name, langcode) == Err(InvalidArgument)
  {
  }

  /** A reference is followed to its target first. */
  lemma ReferenceIsFollowed(store: Store, v: nat, name: string, langcode: Option<string>)
    requires ClosedStore(store) && v in store && store[v].value.Reference?
    ensures store[v].value.target == None ==> DataStep(store, v, name, langcode) == Err(MissingData)
    ensures store[v].value.target.Some? && !store[store[v].value.target.value].value.Reference? ==>
              DataStep(store, v, name, langcode) == DataStep(store, store[v].value.target.value, name, langcode)
  {
  }

  /** Data that have a translation into the language asked for go on from it, and other data from themselves. */
  lemma TranslationIsChosen(store: Store, v: nat, name: string, lang: string)
    requires ClosedStore(store) && v in store && !store[v].value.Reference?
    ensures lang in store[v].translations && !store[store[v].translations[lang]].value.Reference? ==>
              DataStep(store, v, name, Some(lang)) == DataStep(store, store[v].translations[lang], name, None)
    ensures lang !in store[v].translations ==>
              DataStep(store, v, name, Some(lang)) == DataStep(store, v, name, None)
  {
  }

  /** A path finds its first name and goes on from there; the empty path stays where it is. */
  lemma {:induction false} FetchedStepwise(store: Store, v: nat, name: string, rest: seq<string>,
                                           langcode: Option<string>)
    requires ClosedStore(store) && v in store
    ensures Fetched(store, v, [], 0, langcode) == Ok(v)
    ensures DataStep(store, v, name, langcode).Ok? ==>
              var w := DataStep(store, v, name, langcode).value;
              match Fetched(store, w, rest, 0, langcode)
              case Ok(x) => Fetched(store, v, [name] + rest, 0, langcode) == Ok(x)
              case Err(e) =>
                Fetched(store, v, [name] + rest, 0, langcode) == Err(FetchError(e.problem, [name] + e.selector))
    ensures DataStep(store, v, name, langcode).Err? ==>
              Fetched(store, v, [name] + rest, 0, langcode) ==
              Err(FetchError(DataStep(store, v, name, langcode).error, [name]))
  {
    assert ([name] + rest)[..1] == [name];
    if DataStep(store, v, name, langcode).Ok? {
      FetchedShifted(store, DataStep(store, v, name, langcode).value, name, rest, 0, langcode);
    }
  }

  lemma {:induction false} FetchedShifted(store: Store, v: nat, name: string, rest: seq<string>, i: nat,
                                          langcode: Option<string>)
    requires ClosedStore(store) && v in store && i <= |rest|
    ensures match Fetched(store, v, rest, i, langcode)
            case Ok(x) => Fetched(store, v, [name] + rest, i + 1, langcode) == Ok(x)
            case Err(e) =>
              Fetched(store, v, [name] + rest, i + 1, langcode) == Err(FetchError(e.problem, [name] + e.selector))
    decreases |rest| - i
  {
    hide DataStep, ClosedStore;
    if i < |rest| {
      assert ([name] + rest)[i + 1] == rest[i] && ([name] + rest)[..i + 2] == [name] + rest[..i + 1];
      var next := DataStep(store, v, rest[i], langcode);
      if next.Ok? { FetchedShifted(store, next.value, name, rest, i + 1, langcode); }
    }
  }

  /** Item `k` of a list is found by its number, behind a reference to the list as well. */
  lemma ItemOnPath(store: Store, v: nat, k: nat, langcode: Option<string>)
    requires ClosedStore(store) && v in store
    ensures store[v].value.List? && Untranslated(store[v], langcode) && k < |store[v].value.items| ==>
              Fetched(store, v, [Decimal(k)], 0, langcode) == Ok(store[v].value.items[k])
    ensures store[v].value.Reference? && store[v].value.target.Some? ==>
              var list := store[store[v].value.target.value];
              list.value.List? && Untranslated(list, langcode) && k < |list.value.items| ==>
                Fetched(store, v, [Decimal(k)], 0, langcode) == Ok(list.value.items[k])
  {
    assert [Decimal(k)] + [] == [Decimal(k)];
    FetchedStepwise(store, v, Decimal(k), [], langcode);
    if store[v].value.List? && Untranslated(store[v], langcode) { ItemIsFound(store, v, k, langcode); }
    if store[v].value.Reference? && store[v].value.target.Some? {
      var w := store[v].value.target.value;
      ReferenceIsFollowed(store, v, Decimal(k), langcode);
      if store[w].value.List? && Untranslated(store[w], langcode) { ItemIsFound(store, w, k, langcode); }
    }
    if DataStep(store, v, Decimal(k), langcode).Ok? {
      FetchedStepwise(store, DataStep(store, v, Decimal(k), langcode).value, "", [], langcode);
    }
  }

  /** What one name finds in a definition: the item of a list, and a property, also behind a reference and a list. */
  lemma DefinitionIsFound(schema: Schema, d: nat, name: string)
    requires ClosedSchema(schema) && d in schema
    ensures schema[d].PrimitiveDefinition? ==> DefinitionStep(schema, d, name) == None
    ensures schema[d].ListDefinition? && IsDigits(name) ==> DefinitionStep(schema, d, name) == Some(schema[d].item)
    ensures schema[d].ListDefinition? && !IsDigits(name) && schema[schema[d].item].ComplexDefinition? ==>
              DefinitionStep(schema, d, name) == DefinitionStep(schema, schema[d].item, name)
    ensures schema[d].ComplexDefinition? ==>
              (DefinitionStep(schema, d, name) == None <==>
                 forall i | 0 <= i < |schema[d].properties| :: schema[d].properties[i].0 != name)
    ensures schema[d].ReferenceDefinition? && !schema[schema[d].target].ReferenceDefinition? ==>
              DefinitionStep(schema, d, name) == DefinitionStep(schema, schema[d].target, name)
  {
  }

  /** A path through definitions does likewise, and an error names the part of the path up to the name refused. */
  lemma {:induction false} DefinedStepwise(schema: Schema, d: nat, name: string, rest: seq<string>)
    requires ClosedSchema(schema) && d in schema
    ensures Defined(schema, d, [], 0) == Ok(d)
    ensures DefinitionStep(schema, d, name).Some? ==>
              match Defined(schema, DefinitionStep(schema, d, name).value, rest, 0)
              case Ok(x) => Defined(schema, d, [name] + rest, 0) == Ok(x)
              case Err(e) => Defined(schema, d, [name] + rest, 0) == Err(FetchError(e.problem, [name] + e.selector))
    ensures DefinitionStep(schema, d, name).None? ==>
              Defined(schema, d, [name] + rest, 0) == Err(FetchError(InvalidArgument, [name]))
  {
    assert ([name] + rest)[..1] == [name];
    if DefinitionStep(schema, d, name).Some? {
      DefinedBehind(schema, DefinitionStep(schema, d, name).value, name, rest, 0);
    }
  }

  lemma {:induction false} DefinedBehind(schema: Schema, d: nat, name: string, rest: seq<string>, i: nat)
    requires ClosedSchema(schema) && d in schema && i <= |rest|
    ensures match Defined(schema, d, rest, i)
            case Ok(x) => Defined(schema, d, [name] + rest, i + 1) == Ok(x)
            case Err(e) => Defined(schema, d, [name] + rest, i + 1) == Err(FetchError(e.problem, [name] + e.selector))
    decreases |rest| - i
  {
    hide DefinitionStep, ClosedSchema;
    if i < |rest| {
      assert ([name] + rest)[i + 1] == rest[i] && ([name] + rest)[..i + 2] == [name] + rest[..i + 1];
      var next := DefinitionStep(schema, d, rest[i]);
      if next.Some? { DefinedBehind(schema, next.value, name, rest, i + 1); }
    }
  }
}
