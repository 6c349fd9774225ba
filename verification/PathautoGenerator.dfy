/** One generation of an alias for an entity, and what any sequence of generations keeps. */
module PathautoGenerator {
  import opened Wrappers
  import opened Decimals
  import opened AliasCleaner
  import opened AliasStorage
  import opened AliasUniquifier

  datatype Operation = Insert | Update | BulkUpdate | Return

  datatype Settings = Settings(separator: string, maxLength: nat, action: UpdateAction)

  /**
   * What is known of an entity: whether a pattern applies, its internal path if it has one, the pattern with its
   * tokens replaced, and the pattern with its tokens removed.
   */
  datatype Entity = Entity(hasPattern: bool, internalPath: Option<string>, replaced: string, stripped: string)

  datatype Outcome = NoAlias | Returned(alias: string) | Stored(record: PathAlias)

  function Source(entity: Entity): string
    requires entity.internalPath.Some?
  {
    "/" + entity.internalPath.value
  }

  /** The record to be replaced or left alone: only updates look for one. */
  function Existing(records: seq<PathAlias>, op: Operation, source: string): Option<PathAlias> {
    if op == Update || op == BulkUpdate then BySource(records, source) else None
  }

  /** The alias before the search for a free variant, if the generation gets that far. */
  function Cleaned(records: seq<PathAlias>, op: Operation, entity: Entity, settings: Settings,
                   truncate: (string, int) -> string)
    : (r: Option<string>)
    requires |settings.separator| <= 1
    ensures r.Some? ==> entity.internalPath.Some?
  {
    if !entity.hasPattern || entity.internalPath.None? then None
    else if Existing(records, op, Source(entity)).Some? && settings.action == NoNew then None
    else if entity.replaced == entity.stripped then None
    else
      var alias := CleanAlias(entity.replaced, settings.separator, settings.maxLength, truncate);
      if alias == "" then None else Some(alias)
  }

  /**
   * The table before and after a generation, its outcome, and the alias it chose: a free variant of the cleaned one,
   * if it got that far.
   */
  ghost predicate Generated(before: seq<PathAlias>, after: seq<PathAlias>, pid: nat, op: Operation, entity: Entity,
                            settings: Settings, taken: set<string>, truncate: (string, int) -> string,
                            r: Outcome, chosen: string)
    requires |settings.separator| <= 1
  {
    match Cleaned(before, op, entity, settings, truncate)
    case None => r == NoAlias && after == before
    case Some(alias) =>
      && Unique(before, taken, alias, Source(entity), settings.separator, settings.maxLength, truncate, chosen)
      && Finished(before, after, pid, op, Source(entity), chosen, Existing(before, op, Source(entity)),
        settings.action, r)
  }

  /** Some record of the table has this source. */
  ghost predicate HasSource(records: seq<PathAlias>, source: string) {
    exists record :: record in records && record.source == source
  }

  /**
   * Nothing is generated without a pattern or a path, if no token was replaced, and if an update finds a record of the
   * source that it is not to replace nor to add to.
   */
  lemma WhenNothingIsGenerated(records: seq<PathAlias>, op: Operation, entity: Entity, settings: Settings,
                               truncate: (string, int) -> string)
    requires |settings.separator| <= 1
    ensures !entity.hasPattern || entity.internalPath.None? || entity.replaced == entity.stripped ==>
              Cleaned(records, op, entity, settings, truncate).None?
    ensures (op == Update || op == BulkUpdate) && settings.action == NoNew && entity.internalPath.Some? &&
            HasSource(records, Source(entity)) ==>
              Cleaned(records, op, entity, settings, truncate).None?
    ensures entity.hasPattern && entity.internalPath.Some? && entity.replaced != entity.stripped
            && (op == Insert || op == Return || settings.action != NoNew || !HasSource(records, Source(entity))) ==>
              var alias := CleanAlias(entity.replaced, settings.separator, settings.maxLength, truncate);
              Cleaned(records, op, entity, settings, truncate) == if alias == "" then None else Some(alias)
  {
    hide CleanAlias;
    if entity.internalPath.Some? {
      var source := Source(entity);
      assert BySource(records, source).None? <==> !HasSource(records, source) by {
        if BySource(records, source).Some? { assert BySource(records, source).value in records; }
        if BySource(records, source).None? {
          forall record | record in records ensures record.source != source {
            var i :| 0 <= i < |records| && records[i] == record;
          }
        }
      }
    }
  }

  lemma WhatGenerationMeans(before: seq<PathAlias>, after: seq<PathAlias>, pid: nat, op: Operation, entity: Entity,
                            settings: Settings, taken: set<string>, truncate: (string, int) -> string,
                            r: Outcome, chosen: string)
    requires |settings.separator| <= 1
    requires Generated(before, after, pid, op, entity, settings, taken, truncate, r, chosen)
    ensures (op == Update || op == BulkUpdate) && settings.action == NoNew && entity.internalPath.Some? &&
            HasSource(before, Source(entity)) ==>
              r == NoAlias && after == before
    ensures !entity.hasPattern || entity.internalPath.None? || entity.replaced == entity.stripped ==>
              r == NoAlias && after == before
    ensures op == Return ==> after == before && !r.Stored?
    ensures r.Returned? ==> op == Return && r.alias == chosen
    ensures r.Stored? ==>
              && r.record in after && entity.internalPath.Some?
              && r.record.source == "/" + entity.internalPath.value && r.record.alias == chosen
  {
    WhenNothingIsGenerated(before, op, entity, settings, truncate);
    hide Unique, Cleaned;
    if r.Stored? {
      var existing := Existing(before, op, Source(entity));
      ExistingSource(before, op, Source(entity));
      hide Existing;
      StoredRecord(before, after, pid, Source(entity), chosen, existing, settings.action, r.record);
    }
  }

  lemma StoredRecord(before: seq<PathAlias>, after: seq<PathAlias>, pid: nat, source: string, alias: string,
                     existing: Option<PathAlias>, action: UpdateAction, record: PathAlias)
    requires existing.Some? ==> existing.value in before && existing.value.source == source
    requires Saved(before, after, pid, source, alias, existing, action, Some(record))
    ensures record in after && record.source == source && record.alias == alias
  {
    if existing.Some? && action == Delete {
      var i :| 0 <= i < |before| && before[i] == existing.value && after == before[i := record];
      assert after[i] == record;
    } else {
      assert after[|before|] == record;
    }
  }

  class PathautoGenerator {
    const storage: AliasStorageHelper
    const settings: Settings

    constructor (storage: AliasStorageHelper, settings: Settings)
      requires |settings.separator| <= 1
      ensures this.storage == storage && this.settings == settings
    {
      this.storage, this.settings := storage, settings;
    }

    /**
     * Every alias stored is free for its source, and after it no alias text belongs to two sources, as before. An
     * operation that only returns the alias, and one that ends without, leave the table alone; so does an update that
     * finds a record of the source and is to store no new one.
     */
    method CreateEntityAlias(op: Operation, entity: Entity, taken: set<string>, truncate: (string, int) -> string)
      returns (r: Outcome, ghost chosen: string)
      requires |settings.separator| <= 1 && Truncates(truncate) && storage.Valid()
      modifies storage
      ensures storage.Valid()
      ensures Generated(old(storage.records), storage.records, old(storage.next), op, entity, settings, taken, truncate,
                        r, chosen)
      ensures (op == Update || op == BulkUpdate) && settings.action == NoNew && entity.internalPath.Some? &&
              HasSource(old(storage.records), Source(entity)) ==>
                r == NoAlias && storage.records == old(storage.records)
      ensures !entity.hasPattern || entity.internalPath.None? || entity.replaced == entity.stripped ==>
                r == NoAlias && storage.records == old(storage.records)
      ensures op == Return ==> storage.records == old(storage.records) && !r.Stored?
      ensures r.Returned? ==> op == Return && r.alias == chosen
      ensures r.Stored? ==>
                && r.record in storage.records && entity.internalPath.Some?
                && r.record.source == "/" + entity.internalPath.value && r.record.alias == chosen
    {
      hide *;
      ghost var before, pid := storage.records, storage.next;
      r, chosen := GenerateAlias(op, entity, taken, truncate);
      WhatGenerationMeans(before, storage.records, pid, op, entity, settings, taken, truncate, r, chosen);
    }

    method GenerateAlias(op: Operation, entity: Entity, taken: set<string>, truncate: (string, int) -> string)
      returns (r: Outcome, ghost chosen: string)
      requires |settings.separator| <= 1 && Truncates(truncate) && storage.Valid()
      modifies storage
      ensures storage.Valid()
      ensures Generated(old(storage.records), storage.records, old(storage.next), op, entity, settings, taken, truncate,
                        r, chosen)
    {
      chosen := "";
      if !entity.hasPattern {
        return NoAlias, chosen;
      }
      if entity.internalPath.None? {
        return NoAlias, chosen;
      }
      var source := "/" + entity.internalPath.value;
      var existing := None;
      if op == Update || op == BulkUpdate {
        existing := storage.LoadBySource(source);
        if existing.Some? && settings.action == NoNew {
          return NoAlias, chosen;
        }
      }
      if entity.replaced == entity.stripped {
        return NoAlias, chosen;
      }
      var alias := CleanAlias(entity.replaced, settings.separator, settings.maxLength, truncate);
      if alias == "" {
        return NoAlias, chosen;
      }
      r, chosen := FinishAlias(op, source, alias, existing, taken, truncate);
    }

    /** Finds a free variant of the alias, and returns or stores it. */
    method FinishAlias(op: Operation, source: string, cleaned: string, existing: Option<PathAlias>, taken: set<string>,
                       truncate: (string, int) -> string)
      returns (r: Outcome, ghost chosen: string)
      requires Truncates(truncate) && storage.Valid() && IsPath(source)
      requires existing.Some? ==> existing.value in storage.records && existing.value.source == source
      modifies storage
      ensures storage.Valid()
      ensures Unique(old(storage.records), taken, cleaned, source, settings.separator, settings.maxLength, truncate,
                 chosen)
      ensures Finished(old(storage.records), storage.records, old(storage.next), op, source, chosen, existing,
                 settings.action, r)
    {
      hide *;
      ghost var before, pid := storage.records, storage.next;
      TableValid();
      var alias := Uniquify(storage.records, taken, cleaned, source, settings.separator, settings.maxLength, truncate);
      chosen := alias;
      UniqueIsFree(before, taken, cleaned, source, settings.separator, settings.maxLength, truncate, alias);
      if op == Return {
        r := Returned(alias);
        FinishedReturn(before, pid, source, alias, existing, settings.action);
      } else {
        var saved := storage.Save(source, alias, existing, settings.action);
        SavedKeepsOneSource(before, storage.records, pid, source, alias, existing, settings.action, saved, taken);
        TableValidFrom();
        r := match saved case Some(record) => Stored(record) case None => NoAlias;
        FinishedSave(before, storage.records, pid, op, source, alias, existing, settings.action, saved);
      }
    }

    lemma TableValid()
      requires storage.Valid()
      ensures Numbered(storage.records, storage.next) && NoSelf(storage.records) && OneSource(storage.records)
    {
    }

    lemma TableValidFrom()
      requires Numbered(storage.records, storage.next) && NoSelf(storage.records) && OneSource(storage.records)
      ensures storage.Valid()
    {
    }
  }

  lemma FinishedReturn(before: seq<PathAlias>, pid: nat, source: string, chosen: string, existing: Option<PathAlias>,
                       action: UpdateAction)
    requires existing.Some? ==> existing.value in before
    ensures Finished(before, before, pid, Return, source, chosen, existing, action, Returned(chosen))
  {
  }

  lemma FinishedSave(before: seq<PathAlias>, after: seq<PathAlias>, pid: nat, op: Operation, source: string,
                     chosen: string, existing: Option<PathAlias>, action: UpdateAction, saved: Option<PathAlias>)
    requires op != Return && (existing.Some? ==> existing.value in before)
    requires Saved(before, after, pid, source, chosen, existing, action, saved)
    ensures Finished(before, after, pid, op, source, chosen, existing, action,
                     match saved case Some(record) => Stored(record) case None => NoAlias)
  {
  }

  /** The table before and after the last step of a generation, for the alias `chosen`. */
  ghost predicate Finished(before: seq<PathAlias>, after: seq<PathAlias>, pid: nat, op: Operation, source: string,
                           chosen: string, existing: Option<PathAlias>, action: UpdateAction, r: Outcome)
    requires existing.Some? ==> existing.value in before
  {
    match r
    case Returned(alias) => op == Return && after == before && alias == chosen
    case Stored(record) => op != Return && Saved(before, after, pid, source, chosen, existing, action, Some(record))
    case NoAlias => op != Return && after == before && Saved(before, after, pid, source, chosen, existing, action, None)
  }

  lemma UniqueIsFree(records: seq<PathAlias>, taken: set<string>, alias: string, source: string, separator: string,
                     maxLength: nat, truncate: (string, int) -> string, r: string)
    requires Unique(records, taken, alias, source, separator, maxLength, truncate, r)
    ensures !Reserved(records, taken, r, source)
  {
  }

  /** The alias stored fits the maximal length if there is room for a separator and a number as large as the table. */
  lemma StoredFits(records: seq<PathAlias>, op: Operation, entity: Entity, settings: Settings, taken: set<string>,
                   truncate: (string, int) -> string, chosen: string)
    requires |settings.separator| == 1 && !IsDigit(settings.separator[0]) && Truncates(truncate)
    requires 1 + |Decimal(|Texts(records) + taken|)| <= settings.maxLength
    requires Cleaned(records, op, entity, settings, truncate).Some?
    requires Unique(records, taken, Cleaned(records, op, entity, settings, truncate).value, Source(entity),
                    settings.separator, settings.maxLength, truncate, chosen)
    ensures |chosen| <= settings.maxLength
  {
    AliasCleaned(entity.replaced, settings.separator, settings.maxLength, truncate);
    UniqueFits(records, taken, Cleaned(records, op, entity, settings, truncate).value, Source(entity),
               settings.separator, settings.maxLength, truncate, chosen);
  }

  /**
   * An entity that is generated again and keeps its alias gets the same alias again: its own alias is not reserved
   * for it.
   */
  lemma OwnAliasIsKept(records: seq<PathAlias>, taken: set<string>, record: PathAlias, separator: string,
                       maxLength: nat, truncate: (string, int) -> string, r: string)
    requires OneSource(records) && NoSelf(records) && record in records
    requires Unique(records, taken, record.alias, record.source, separator, maxLength, truncate, r)
    ensures r == record.alias
  {
    var other := ByAlias(records, record.alias).value;
    assert other.source == record.source;
  }

  // --- When a pair of source and alias is stored again ---

  function HoldsPair(source: string, alias: string): PathAlias -> bool {
    (record: PathAlias) => record.source == source && record.alias == alias
  }

  /** How many records hold this pair of source and alias. */
  function Copies(records: seq<PathAlias>, source: string, alias: string): nat {
    if records == [] then 0
    else
      Copies(records[..|records| - 1], source, alias) +
      if HoldsPair(source, alias)(records[|records| - 1]) then 1 else 0
  }

  lemma {:induction false} CopiesReplaced(records: seq<PathAlias>, i: nat, record: PathAlias, source: string,
                                          alias: string)
    requires i < |records|
    ensures Copies(records[i := record], source, alias) ==
              Copies(records, source, alias)
              - (if HoldsPair(source, alias)(records[i]) then 1 else 0)
              + if HoldsPair(source, alias)(record) then 1 else 0
  {
    var n := |records| - 1;
    var next := records[i := record];
    if i < n {
      assert next[..n] == records[..n][i := record] && next[n] == records[n];
      CopiesReplaced(records[..n], i, record, source, alias);
    } else {
      assert next[..n] == records[..n];
    }
  }

  /** Whether a generation writes the chosen alias, as a new record or over another alias of the source. */
  predicate Writes(before: seq<PathAlias>, op: Operation, source: string, action: UpdateAction, chosen: string) {
    var existing := Existing(before, op, source);
    op != Return && source != chosen && !(existing.Some? && action == Delete && existing.value.alias == chosen)
  }

  /** Whether a generation takes this alias away from its source, to put another one in its place. */
  predicate Overwrites(before: seq<PathAlias>, op: Operation, source: string, action: UpdateAction, chosen: string,
                       alias: string) {
    var existing := Existing(before, op, source);
    Writes(before, op, source, action, chosen) && existing.Some? && action == Delete && existing.value.alias == alias
  }

  lemma SavedCopies(before: seq<PathAlias>, after: seq<PathAlias>, pid: nat, op: Operation, source: string,
                    chosen: string,
                    action: UpdateAction, saved: Option<PathAlias>, other: string, alias: string)
    requires op != Return
    requires Saved(before, after, pid, source, chosen, Existing(before, op, source), action, saved)
    ensures Copies(after, other, alias) ==
              Copies(before, other, alias)
              + (if other == source && alias == chosen && Writes(before, op, source, action, chosen) then 1 else 0)
              - if other == source && Overwrites(before, op, source, action, chosen, alias) then 1 else 0
  {
    hide Copies;
    var existing := Existing(before, op, source);
    ExistingSource(before, op, source);
    hide Existing;
    if Writes(before, op, source, action, chosen) {
      if existing.Some? && action == Delete {
        var i :| 0 <= i < |before| && before[i] == existing.value && after == before[i := saved.value];
        CopiesReplaced(before, i, saved.value, other, alias);
      } else {
        CopiesAppended(before, saved.value, other, alias);
      }
    }
  }

  lemma ExistingSource(records: seq<PathAlias>, op: Operation, source: string)
    ensures Existing(records, op, source).Some? ==> Existing(records, op, source).value.source == source
  {
  }

  lemma CopiesAppended(records: seq<PathAlias>, record: PathAlias, source: string, alias: string)
    ensures Copies(records + [record], source, alias) ==
              Copies(records, source, alias) + if HoldsPair(source, alias)(record) then 1 else 0
  {
    assert (records + [record])[..|records|] == records;
  }

  /**
   * Exactly what a generation does to the number of records for any pair: one more for the chosen alias if it is
   * written, one less for the alias it is written over, and otherwise none more and none less.
   */
  lemma GeneratedCopies(before: seq<PathAlias>, after: seq<PathAlias>, pid: nat, op: Operation, entity: Entity,
                        settings: Settings, taken: set<string>, truncate: (string, int) -> string, r: Outcome,
                        chosen: string, source: string, alias: string)
    requires |settings.separator| <= 1
    requires Generated(before, after, pid, op, entity, settings, taken, truncate, r, chosen)
    ensures var mine := Cleaned(before, op, entity, settings, truncate).Some? && source == Source(entity);
            Copies(after, source, alias) ==
              Copies(before, source, alias)
              + (if mine && alias == chosen && Writes(before, op, source, settings.action, chosen) then 1 else 0)
              - if mine && Overwrites(before, op, source, settings.action, chosen, alias) then 1 else 0
  {
    if Cleaned(before, op, entity, settings, truncate).Some? && op != Return {
      var saved := match r case Stored(record) => Some(record) case _ => None;
      SavedCopies(before, after, pid, op, Source(entity), chosen, settings.action, saved, source, alias);
    }
  }

  /**
   * A generation stores a pair once more although the table holds it already exactly if it chooses an alias that the
   * source has, other than the source itself, and neither only returns it nor finds it in the newest record of the
   * source while it is to replace that.
   */
  lemma StoredAgainIff(before: seq<PathAlias>, after: seq<PathAlias>, pid: nat, op: Operation, entity: Entity,
                       settings: Settings, taken: set<string>, truncate: (string, int) -> string, r: Outcome,
                       chosen: string, source: string, alias: string)
    requires |settings.separator| <= 1
    requires Generated(before, after, pid, op, entity, settings, taken, truncate, r, chosen)
    ensures Copies(after, source, alias) > Copies(before, source, alias) > 0 <==>
              && Cleaned(before, op, entity, settings, truncate).Some? && op != Return
              && source == Source(entity) && alias == chosen && alias != source
              && PathAliasIn(before, source, alias)
              && !(settings.action == Delete && Existing(before, op, source).Some?
                   && Existing(before, op, source).value.alias == alias)
  {
    GeneratedCopies(before, after, pid, op, entity, settings, taken, truncate, r, chosen, source, alias);
    CopiesPositive(before, source, alias);
  }

  predicate PathAliasIn(records: seq<PathAlias>, source: string, alias: string) {
    exists i :: 0 <= i < |records| && records[i].source == source && records[i].alias == alias
  }

  lemma {:induction false} CopiesPositive(records: seq<PathAlias>, source: string, alias: string)
    ensures Copies(records, source, alias) > 0 <==> PathAliasIn(records, source, alias)
  {
    if records != [] {
      var n := |records| - 1;
      CopiesPositive(records[..n], source, alias);
      if PathAliasIn(records[..n], source, alias) {
        var i :| 0 <= i < n && records[..n][i].source == source && records[..n][i].alias == alias;
        assert records[i].source == source;
      }
      if PathAliasIn(records, source, alias) {
        var i :| 0 <= i < |records| && records[i].source == source && records[i].alias == alias;
        if i < n { assert records[..n][i].source == source; }
      }
    }
  }

  /** With existing aliases left in place, every update whose alias has not changed stores it a second time. */
  lemma LeaveStoresAgain(before: seq<PathAlias>, after: seq<PathAlias>, pid: nat, op: Operation, entity: Entity,
                         settings: Settings, taken: set<string>, truncate: (string, int) -> string, r: Outcome,
                         chosen: string, record: PathAlias)
    requires |settings.separator| <= 1 && settings.action == Leave && (op == Update || op == BulkUpdate)
    requires OneSource(before) && NoSelf(before)
    requires Cleaned(before, op, entity, settings, truncate) == Some(record.alias)
    requires record in before && record.source == Source(entity)
    requires Generated(before, after, pid, op, entity, settings, taken, truncate, r, chosen)
    ensures after == before + [record.(pid := pid)] && r == Stored(record.(pid := pid))
    ensures Copies(after, record.source, record.alias) > Copies(before, record.source, record.alias) > 0
  {
    OwnAliasIsKept(before, taken, record, settings.separator, settings.maxLength, truncate, chosen);
    var i :| 0 <= i < |before| && before[i] == record;
    assert before[i].source != before[i].alias;
    StoredAgainIff(before, after, pid, op, entity, settings, taken, truncate, r, chosen, record.source, record.alias);
  }

  /** Replacing can duplicate as well: an older alias of the source is written over the newest one. */
  lemma ReplacingStoresAgain(after: seq<PathAlias>, entity: Entity, settings: Settings, taken: set<string>,
                             truncate: (string, int) -> string, r: Outcome, chosen: string, first: string,
                             second: string)
    requires |settings.separator| <= 1 && settings.action == Delete && entity.internalPath.Some?
    requires first != second && first != Source(entity) && second != Source(entity)
    requires var before := [PathAlias(0, Source(entity), first), PathAlias(1, Source(entity), second)];
             && Cleaned(before, Update, entity, settings, truncate) == Some(first)
             && Generated(before, after, 2, Update, entity, settings, taken, truncate, r, chosen)
    ensures after == [PathAlias(0, Source(entity), first), PathAlias(1, Source(entity), first)]
  {
    var source := Source(entity);
    var a, b := PathAlias(0, source, first), PathAlias(1, source, second);
    assert BySource([a, b], source) == Some(b);
    assert Existing([a, b], Update, source) == Some(b);
    hide *;
    ChosenOfOwn(after, entity, settings, taken, truncate, r, chosen, a, b);
    SecondReplaced(a, b, after, first, r);
  }

  lemma ChosenOfOwn(after: seq<PathAlias>, entity: Entity, settings: Settings, taken: set<string>,
                    truncate: (string, int) -> string, r: Outcome, chosen: string, a: PathAlias, b: PathAlias)
    requires |settings.separator| <= 1 && settings.action == Delete && entity.internalPath.Some?
    requires a.source == b.source == Source(entity) && a.source != a.alias && b.source != b.alias && a.alias != b.alias
    requires Cleaned([a, b], Update, entity, settings, truncate) == Some(a.alias)
    requires Existing([a, b], Update, a.source) == Some(b)
    requires Generated([a, b], after, 2, Update, entity, settings, taken, truncate, r, chosen)
    ensures chosen == a.alias && Finished([a, b], after, 2, Update, a.source, a.alias, Some(b), Delete, r)
  {
    hide Cleaned, Unique, Existing, Finished;
    OwnAliasIsKept([a, b], taken, a, settings.separator, settings.maxLength, truncate, chosen);
  }

  lemma SecondReplaced(a: PathAlias, b: PathAlias, after: seq<PathAlias>, alias: string, r: Outcome)
    requires a != b && a.source == b.source && b.source != alias && b.alias != alias
    requires Finished([a, b], after, 2, Update, a.source, alias, Some(b), Delete, r)
    ensures after == [a, b.(alias := alias)]
  {
    var i :| 0 <= i < 2 && [a, b][i] == b && after == [a, b][i := b.(alias := alias)];
    assert i == 1;
  }

  /** No source has more than one record. */
  ghost predicate OneAlias(records: seq<PathAlias>) {
    forall i, j | 0 <= i < j < |records| :: records[i].source != records[j].source
  }

  /** But as long as every source has one record at most, updates that replace keep it so, and duplicate nothing. */
  lemma ReplacingKeepsOneAlias(before: seq<PathAlias>, after: seq<PathAlias>, pid: nat, op: Operation, entity: Entity,
                               settings: Settings, taken: set<string>, truncate: (string, int) -> string, r: Outcome,
                               chosen: string)
    requires |settings.separator| <= 1 && settings.action == Delete && (op == Update || op == BulkUpdate)
    requires OneAlias(before) && Generated(before, after, pid, op, entity, settings, taken, truncate, r, chosen)
    ensures OneAlias(after)
  {
    if Cleaned(before, op, entity, settings, truncate).Some? && after != before {
      var source := Source(entity);
      var existing := BySource(before, source);
      if existing.Some? {
        var i :| 0 <= i < |before| && before[i] == existing.value && after == before[i := before[i].(alias := chosen)];
      } else {
        assert forall i | 0 <= i < |before| :: before[i].source != source;
      }
    }
  }
}
