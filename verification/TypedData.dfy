/**
 * Typed data and its definitions. Both may refer to each other in circles (a node has an author who has nodes), so
 * they are tables by number: a schema of definitions and a store of data.
 */
module TypedData {
  import opened Decimals
  import opened Wrappers

  datatype Definition =
    | PrimitiveDefinition
    | ReferenceDefinition(target: nat)
      /** `single` marks a field that holds one item only. */
    | ListDefinition(item: nat, single: bool)
    | ComplexDefinition(properties: seq<(string, nat)>)

  type Schema = map<nat, Definition>

  datatype Value =
    | Primitive
    | Reference(target: Option<nat>)
    | List(items: seq<nat>)
    | Complex(properties: map<string, nat>)
      /** Complex data without anything behind it, such as an entity adapter without an entity. */
    | EmptyComplex

  datatype Datum = Datum(value: Value, translations: map<string, nat>)

  type Store = map<nat, Datum>

  predicate ClosedSchema(schema: Schema) {
    forall d | d in schema ::
      match schema[d]
      case PrimitiveDefinition => true
      case ReferenceDefinition(target) => target in schema
      case ListDefinition(item, _) => item in schema
      case ComplexDefinition(properties) => forall i | 0 <= i < |properties| :: properties[i].1 in schema
  }

  predicate ClosedStore(store: Store) {
    forall v | v in store ::
      && (forall l | l in store[v].translations :: store[v].translations[l] in store)
      && match store[v].value
         case Reference(target) => target.Some? ==> target.value in store
         case List(items) => forall i | 0 <= i < |items| :: items[i] in store
         case Complex(properties) => forall p | p in properties :: properties[p] in store
         case _ => true
  }

  /** What an ordered table of names holds under a name. */
  function Lookup(table: seq<(string, nat)>, name: string): (r: Option<nat>)
    ensures r.Some? ==> exists i :: 0 <= i < |table| && table[i] == (name, r.value)
    ensures r.None? ==> forall i | 0 <= i < |table| :: table[i].0 != name
  {
    if table == [] then None
    else if table[0].0 == name then Some(table[0].1)
    else
      var r := Lookup(table[1..], name);
      assert forall i | 0 <= i < |table[1..]| :: table[1..][i] == table[i + 1];
      r
  }

  /** One datum has the shape that one definition asks for, and its parts are paired with the definition's parts. */
  ghost predicate ConformsAt(store: Store, schema: Schema, pairs: set<(nat, nat)>, v: nat, d: nat)
    requires v in store && d in schema
  {
    && (forall l | l in store[v].translations :: (store[v].translations[l], d) in pairs)
    && match schema[d]
       case PrimitiveDefinition => store[v].value.Primitive?
       case ReferenceDefinition(target) =>
         && store[v].value.Reference?
         && (store[v].value.target.Some? ==> (store[v].value.target.value, target) in pairs)
       case ListDefinition(item, _) =>
         && store[v].value.List?
         && forall i | 0 <= i < |store[v].value.items| :: (store[v].value.items[i], item) in pairs
       case ComplexDefinition(properties) =>
         || store[v].value.EmptyComplex?
         || (&& store[v].value.Complex?
             && forall p | p in store[v].value.properties ::
                  && Lookup(properties, p).Some?
                  && (store[v].value.properties[p], Lookup(properties, p).value) in pairs)
  }

  /** Every pair in `pairs` is a datum conforming to a definition, all the way down and around. */
  ghost predicate Conformance(store: Store, schema: Schema, pairs: set<(nat, nat)>) {
    forall p | p in pairs :: p.0 in store && p.1 in schema && ConformsAt(store, schema, pairs, p.0, p.1)
  }

  /** A datum conforms to a definition if some consistent pairing says so. */
  ghost predicate Conforms(store: Store, schema: Schema, v: nat, d: nat) {
    exists pairs :: Conformance(store, schema, pairs) && (v, d) in pairs
  }

  // --- Names of list items ---

  predicate IsDigits(name: string) {
    name != "" && forall i | 0 <= i < |name| :: '0' <= name[i] <= '9'
  }

  function DigitsValue(name: string): nat
    requires forall i | 0 <= i < |name| :: '0' <= name[i] <= '9'
  {
    if name == "" then 0 else DigitsValue(name[..|name| - 1]) * 10 + (name[|name| - 1] - '0') as nat
  }

  /** The item a name of digits stands for. A name with leading zeros is no index of the list. */
  function ItemNamed(items: seq<nat>, name: string): (r: Option<nat>)
    requires IsDigits(name)
    ensures r.Some? ==> r.value in items
  {
    if (name == "0" || name[0] != '0') && DigitsValue(name) < |items| then Some(items[DigitsValue(name)]) else None
  }

  /** A name is a number if it holds digits only, and at least one. */
  lemma NamesOfDigits(name: string)
    ensures IsDigits(name) <==> name != "" && forall i | 0 <= i < |name| :: name[i] in "0123456789"
  {
    forall c: char ensures '0' <= c <= '9' <==> c in "0123456789" {
      if '0' <= c <= '9' { assert "0123456789"[c as int - '0' as int] == c; }
    }
  }

  /** The decimal digits of a number name it, without zeros in front. */
  lemma {:induction false} DecimalValue(k: nat)
    ensures IsDigits(Decimal(k)) && DigitsValue(Decimal(k)) == k
    ensures Decimal(k) == "0" || Decimal(k)[0] != '0'
  {
    DecimalSplits(k);
    DecimalDigits(k);
    DigitIs(k % 10);
    if k >= 10 {
      DecimalValue(k / 10);
      var s := Decimal(k);
      assert s[..|s| - 1] == Decimal(k / 10) && s[0] == s[..|s| - 1][0];
    }
  }

  /** The name of item `k` is the number `k` in decimal; there is none beyond the end. */
  lemma NumberedItem(items: seq<nat>, k: nat)
    ensures IsDigits(Decimal(k))
    ensures ItemNamed(items, Decimal(k)) == if k < |items| then Some(items[k]) else None
  {
    DecimalValue(k);
  }

  /** A number with zeros in front names no item. */
  lemma ZerosNameNothing(items: seq<nat>, name: string)
    requires IsDigits("0" + name) && name != ""
    ensures ItemNamed(items, "0" + name) == None
  {
  }

  /** The numbers from 0 to 12 as they are written. */
  lemma FirstNumbers()
    ensures Decimal(0) == "0" && Decimal(1) == "1" && Decimal(2) == "2" && Decimal(9) == "9"
    ensures Decimal(10) == "10" && Decimal(12) == "12"
  {
    assert Decimal(10) == Decimal(1) + [Digit(0)] && Decimal(12) == Decimal(1) + [Digit(2)];
  }
}
