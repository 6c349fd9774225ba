/** The table of path aliases, in one language. */
module AliasStorage {
  import opened Wrappers

  datatype UpdateAction = NoNew | Leave | Delete

  datatype PathAlias = PathAlias(pid: nat, source: string, alias: string)

  // --- Lookups; of several records the newest one counts ---

  function Newest(records: seq<PathAlias>, matches: PathAlias -> bool): (r: Option<PathAlias>)
    ensures r.Some? ==> r.value in records && matches(r.value)
    ensures r.None? <==> forall i | 0 <= i < |records| :: !matches(records[i])
  {
    if records == [] then None
    else if matches(records[|records| - 1]) then Some(records[|records| - 1])
    else Newest(records[..|records| - 1], matches)
  }

  function ByAlias(records: seq<PathAlias>, alias: string): Option<PathAlias> {
    Newest(records, (record: PathAlias) => record.alias == alias)
  }

  function BySource(records: seq<PathAlias>, source: string): Option<PathAlias> {
    Newest(records, (record: PathAlias) => record.source == source)
  }

  /** The path behind an alias, or the alias itself if it is none. */
  function PathByAlias(records: seq<PathAlias>, alias: string): string {
    match ByAlias(records, alias) case Some(record) => record.source case None => alias
  }

  ghost function Texts(records: seq<PathAlias>): set<string> {
    set i | 0 <= i < |records| :: records[i].alias
  }

  /** No alias text belongs to two sources. */
  ghost predicate OneSource(records: seq<PathAlias>) {
    forall i, j | 0 <= i < |records| && 0 <= j < |records| && records[i].alias == records[j].alias ::
      records[i].source == records[j].source
  }

  predicate IsPath(s: string) {
    s != "" && s[0] == '/'
  }

  /** Sources are paths, and none is an alias for itself. */
  ghost predicate NoSelf(records: seq<PathAlias>) {
    forall i | 0 <= i < |records| :: IsPath(records[i].source) && records[i].source != records[i].alias
  }

  /** Record ids grow along the table. */
  ghost predicate Numbered(records: seq<PathAlias>, next: nat) {
    && (forall i | 0 <= i < |records| :: records[i].pid < next)
    && (forall i, j | 0 <= i < j < |records| :: records[i].pid < records[j].pid)
  }

  /** Whether a source may not take an alias: another source has it, or it is taken for other reasons. */
  predicate Reserved(records: seq<PathAlias>, taken: set<string>, alias: string, source: string) {
    var existing := PathByAlias(records, alias);
    if existing != "" && existing != "0" && existing != alias then existing != source else alias in taken
  }

  /** The records without those whose ids are given. */
  function Remaining(records: seq<PathAlias>, pids: set<nat>): seq<PathAlias> {
    if records == [] then []
    else Remaining(records[..|records| - 1], pids) +
         if records[|records| - 1].pid in pids then [] else [records[|records| - 1]]
  }

  class AliasStorageHelper {
    var records: seq<PathAlias>
    var next: nat

    ghost predicate Valid()
      reads this
    {
      Numbered(records, next) && NoSelf(records) && OneSource(records)
    }

    constructor ()
      ensures Valid() && records == []
    {
      records, next := [], 0;
    }

    /** Of several records for a source the newest is found. */
    method LoadBySource(source: string) returns (r: Option<PathAlias>)
      requires Numbered(records, next)
      ensures r == BySource(records, source)
      ensures r.None? <==> forall record | record in records :: record.source != source
      ensures r.Some? ==> r.value in records && r.value.source == source
      ensures r.Some? ==> forall record | record in records && record.source == source :: record.pid <= r.value.pid
    {
      r := BySource(records, source);
      if r.Some? { NewestIsLast(records, next, (record: PathAlias) => record.source == source); }
    }

    /**
     * Stores an alias for a source: not one that equals the source, in place of the existing one if aliases are to
     * be replaced, and otherwise in a new record.
     */
    method Save(source: string, alias: string, existing: Option<PathAlias>, action: UpdateAction)
      returns (saved: Option<PathAlias>)
      requires Numbered(records, next) && (existing.Some? ==> existing.value in records)
      modifies this
      ensures Numbered(records, next) && old(next) <= next
      ensures Saved(old(records), records, old(next), source, alias, existing, action, saved)
    {
      if source == alias {
        return None;
      }
      if existing.Some? && action == Delete {
        var i :| 0 <= i < |records| && records[i] == existing.value;
        if records[i].alias == alias {
          return None;
        }
        records := records[i := records[i].(alias := alias)];
        saved := Some(records[i]);
      } else {
        saved := Some(PathAlias(next, source, alias));
        records := records + [saved.value];
        next := next + 1;
      }
    }

    method DeleteMultiple(pids: set<nat>)
      requires Valid()
      modifies this
      ensures Valid() && records == Remaining(old(records), pids)
      ensures forall record :: record in records <==> record in old(records) && record.pid !in pids
    {
      RemainingKeeps(records, next, pids);
      RemainingExactly(records, pids);
      records := Remaining(records, pids);
    }
  }

  lemma {:induction false} NewestAt(records: seq<PathAlias>, matches: PathAlias -> bool) returns (j: nat)
    requires Newest(records, matches).Some?
    ensures j < |records| && Newest(records, matches) == Some(records[j]) && matches(records[j])
    ensures forall i | j < i < |records| :: !matches(records[i])
  {
    j := |records| - 1;
    if !matches(records[j]) { j := NewestAt(records[..j], matches); }
  }

  lemma NewestIsLast(records: seq<PathAlias>, next: nat, matches: PathAlias -> bool)
    requires Numbered(records, next) && Newest(records, matches).Some?
    ensures forall record | record in records && matches(record) :: record.pid <= Newest(records, matches).value.pid
  {
    hide Newest;
    var j := NewestAt(records, matches);
    forall record | record in records && matches(record) ensures record.pid <= records[j].pid {
      var i :| 0 <= i < |records| && records[i] == record;
      assert i <= j;
    }
  }

  lemma {:induction false} RemainingExactly(records: seq<PathAlias>, pids: set<nat>)
    ensures forall record :: record in Remaining(records, pids) <==> record in records && record.pid !in pids
  {
    if records != [] {
      RemainingExactly(records[..|records| - 1], pids);
      assert records == records[..|records| - 1] + [records[|records| - 1]];
    }
  }

  /** The table before and after an alias is saved. */
  ghost predicate Saved(before: seq<PathAlias>, after: seq<PathAlias>, pid: nat, source: string, alias: string,
                        existing: Option<PathAlias>, action: UpdateAction, saved: Option<PathAlias>)
    requires existing.Some? ==> existing.value in before
  {
    if source == alias then after == before && saved == None
    else if existing.Some? && action == Delete then
      if existing.value.alias == alias then after == before && saved == None
      else
        && saved == Some(existing.value.(alias := alias)) && |after| == |before|
        && exists i :: 0 <= i < |before| && before[i] == existing.value && after == before[i := saved.value]
    else saved == Some(PathAlias(pid, source, alias)) && after == before + [saved.value]
  }

  lemma {:induction false} RemainingMembers(records: seq<PathAlias>, pids: set<nat>) returns (kept: seq<nat>)
    ensures |kept| == |Remaining(records, pids)|
    ensures forall i | 0 <= i < |kept| ::
              kept[i] < |records| && records[kept[i]] == Remaining(records, pids)[i] && records[kept[i]].pid !in pids
    ensures forall i, j | 0 <= i < j < |kept| :: kept[i] < kept[j]
  {
    if records == [] {
      kept := [];
    } else {
      kept := RemainingMembers(records[..|records| - 1], pids);
      if records[|records| - 1].pid !in pids { kept := kept + [|records| - 1]; }
    }
  }

  lemma RemainingKeeps(records: seq<PathAlias>, next: nat, pids: set<nat>)
    requires Numbered(records, next) && NoSelf(records) && OneSource(records)
    ensures var r := Remaining(records, pids); Numbered(r, next) && NoSelf(r) && OneSource(r)
  {
    var kept := RemainingMembers(records, pids);
  }

  /** Saving an alias that is not reserved for the source keeps every alias text with one source. */
  lemma SavedKeepsOneSource(before: seq<PathAlias>, after: seq<PathAlias>, pid: nat, source: string, alias: string,
                            existing: Option<PathAlias>, action: UpdateAction, saved: Option<PathAlias>,
                            taken: set<string>)
    requires OneSource(before) && NoSelf(before)
    requires existing.Some? ==> existing.value in before && existing.value.source == source
    requires IsPath(source) && !Reserved(before, taken, alias, source)
    requires Saved(before, after, pid, source, alias, existing, action, saved)
    ensures OneSource(after) && NoSelf(after)
    ensures saved.Some? ==> saved.value in after && saved.value.source == source && saved.value.alias == alias
  {
    UnreservedSources(before, taken, alias, source);
    if saved.Some? {
      var i := |before|;
      if existing.Some? && action == Delete {
        i :| 0 <= i < |before| && before[i] == existing.value && after == before[i := saved.value];
      }
      assert after[i] == saved.value;
    }
  }

  lemma UnreservedSources(records: seq<PathAlias>, taken: set<string>, alias: string, source: string)
    requires OneSource(records) && NoSelf(records) && !Reserved(records, taken, alias, source)
    ensures forall i | 0 <= i < |records| && records[i].alias == alias :: records[i].source == source
  {
  }
}
