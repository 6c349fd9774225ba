/** The search for a free variant of an alias. */
module AliasUniquifier {
  import opened Decimals
  import opened AliasCleaner
  import opened AliasStorage

  function Candidate(alias: string, i: nat, separator: string, maxLength: nat,
                     truncate: (string, int) -> string): string {
    var suffix := separator + Decimal(i);
    truncate(alias, maxLength - |suffix|) + suffix
  }

  /** The first number whose variant is not reserved. */
  ghost predicate LeastFree(records: seq<PathAlias>, taken: set<string>, alias: string, source: string,
                            separator: string, maxLength: nat, truncate: (string, int) -> string, i: nat) {
    && !Reserved(records, taken, Candidate(alias, i, separator, maxLength, truncate), source)
    && forall j: nat | j < i :: Reserved(records, taken, Candidate(alias, j, separator, maxLength, truncate), source)
  }

  /** The alias itself if it is not reserved, and otherwise its first free variant. */
  ghost predicate Unique(records: seq<PathAlias>, taken: set<string>, alias: string, source: string,
                         separator: string, maxLength: nat, truncate: (string, int) -> string, r: string) {
    if !Reserved(records, taken, alias, source) then r == alias
    else exists i: nat ::
      && LeastFree(records, taken, alias, source, separator, maxLength, truncate, i)
      && r == Candidate(alias, i, separator, maxLength, truncate)
  }

  /**
   * In a table without doubtful entries an alias in use is reserved exactly for the sources that do not have it, and
   * any other text exactly if it is taken.
   */
  method IsReserved(records: seq<PathAlias>, taken: set<string>, alias: string, source: string) returns (r: bool)
    ensures r <==> Reserved(records, taken, alias, source)
    ensures r ==> alias in Texts(records) + taken
    ensures OneSource(records) && NoSelf(records) ==>
              if alias in Texts(records)
              then r <==> forall record | record in records && record.alias == alias :: record.source != source
              else r <==> alias in taken
  {
    TextsReserved(records, taken, alias, source);
    var existing := PathByAlias(records, alias);
    if existing != "" && existing != "0" {
      if existing != alias {
        return existing != source;
      }
    }
    r := alias in taken;
  }

  /**
   * The search ends for every separator: once the number alone is longer than the maximal length, the variants are
   * the separator and the number, and no two of those are the same.
   */
  method Uniquify(records: seq<PathAlias>, taken: set<string>, original: string, source: string,
                  separator: string, maxLength: nat, truncate: (string, int) -> string)
    returns (alias: string)
    requires Truncates(truncate)
    ensures Unique(records, taken, original, source, separator, maxLength, truncate, alias)
  {
    hide *;
    var reserved := IsReserved(records, taken, original, source);
    if !reserved {
      UniqueAtOnce(records, taken, original, source, separator, maxLength, truncate);
      return original;
    }
    ghost var big := PowerOfTen(maxLength);
    var i := 0;
    var suffix := separator + Decimal(i);
    alias := truncate(original, maxLength - |suffix|) + suffix;
    CandidateIs(original, i, separator, maxLength, truncate);
    i := i + 1;
    reserved := IsReserved(records, taken, alias, source);
    while reserved
      invariant i > 0 && alias == Candidate(original, i - 1, separator, maxLength, truncate)
      invariant reserved <==> Reserved(records, taken, alias, source)
      invariant forall j: nat | j < i - 1 ::
                  Reserved(records, taken, Candidate(original, j, separator, maxLength, truncate), source)
      decreases if i < big then big - i else 0,
                |Texts(records) + taken - Late(separator, big, i)|, if reserved then 1 else 0
    {
      LateStep(Texts(records) + taken, separator, big, i);
      if i >= big { LateCandidate(original, separator, maxLength, truncate, i); }
      CandidateIs(original, i, separator, maxLength, truncate);
      suffix := separator + Decimal(i);
      alias := truncate(original, maxLength - |suffix|) + suffix;
      i := i + 1;
      reserved := IsReserved(records, taken, alias, source);
      if reserved { ReservedTexts(records, taken, alias, source); }
    }
    UniqueInTheEnd(records, taken, original, source, separator, maxLength, truncate, i - 1);
  }

  lemma CandidateIs(alias: string, i: nat, separator: string, maxLength: nat, truncate: (string, int) -> string)
    ensures Candidate(alias, i, separator, maxLength, truncate) ==
              truncate(alias, maxLength - |separator + Decimal(i)|) + (separator + Decimal(i))
  {
  }

  lemma UniqueAtOnce(records: seq<PathAlias>, taken: set<string>, alias: string, source: string, separator: string,
                     maxLength: nat, truncate: (string, int) -> string)
    requires !Reserved(records, taken, alias, source)
    ensures Unique(records, taken, alias, source, separator, maxLength, truncate, alias)
  {
  }

  lemma UniqueInTheEnd(records: seq<PathAlias>, taken: set<string>, alias: string, source: string, separator: string,
                       maxLength: nat, truncate: (string, int) -> string, i: nat)
    requires Reserved(records, taken, alias, source)
    requires !Reserved(records, taken, Candidate(alias, i, separator, maxLength, truncate), source)
    requires forall j: nat | j < i ::
                Reserved(records, taken, Candidate(alias, j, separator, maxLength, truncate), source)
    ensures Unique(records, taken, alias, source, separator, maxLength, truncate,
                   Candidate(alias, i, separator, maxLength, truncate))
  {
    assert LeastFree(records, taken, alias, source, separator, maxLength, truncate, i);
  }

  /** The variants from number `big` up to `i` that consist of separator and number only. */
  ghost function Late(separator: string, big: nat, i: nat): set<string> {
    set j: nat | big <= j < i :: separator + Decimal(j)
  }

  lemma ReservedTexts(records: seq<PathAlias>, taken: set<string>, alias: string, source: string)
    requires Reserved(records, taken, alias, source)
    ensures alias in Texts(records) + taken
  {
    match ByAlias(records, alias)
    case Some(record) =>
      var i :| 0 <= i < |records| && records[i] == record;
      assert records[i].alias in Texts(records);
    case None =>
  }

  /**
   * In any table the newest record of an alias decides: it is reserved for all sources but that of the record. A
   * record that leads to nothing, to "0" or to the alias itself is passed over.
   */
  lemma {:induction false} NewestDecides(records: seq<PathAlias>, taken: set<string>, alias: string, source: string,
                                         i: nat)
    requires i < |records| && records[i].alias == alias && forall j | i < j < |records| :: records[j].alias != alias
    ensures Reserved(records, taken, alias, source) <==>
              if records[i].source in ["", "0", alias] then alias in taken else records[i].source != source
    decreases |records|
  {
    var front := records[..|records| - 1];
    if i < |front| {
      NewestDecides(front, taken, alias, source, i);
      assert ByAlias(records, alias) == ByAlias(front, alias);
    }
  }

  lemma TextsReserved(records: seq<PathAlias>, taken: set<string>, alias: string, source: string)
    ensures Reserved(records, taken, alias, source) ==> alias in Texts(records) + taken
    ensures OneSource(records) && NoSelf(records) && alias in Texts(records) ==>
              (Reserved(records, taken, alias, source) <==>
                 forall record | record in records && record.alias == alias :: record.source != source)
    ensures alias !in Texts(records) ==> (Reserved(records, taken, alias, source) <==> alias in taken)
  {
    if Reserved(records, taken, alias, source) { ReservedTexts(records, taken, alias, source); }
    match ByAlias(records, alias)
    case Some(record) =>
      var i :| 0 <= i < |records| && records[i] == record;
      assert records[i].alias in Texts(records);
    case None =>
  }

  lemma LateCandidate(alias: string, separator: string, maxLength: nat, truncate: (string, int) -> string, i: nat)
    requires Truncates(truncate) && i >= PowerOfTen(maxLength)
    ensures Candidate(alias, i, separator, maxLength, truncate) == separator + Decimal(i)
  {
    ManyDigits(i, maxLength);
    var n := maxLength - |separator + Decimal(i)|;
    assert |truncate(alias, n)| <= 0;
  }

  lemma LateStep(all: set<string>, separator: string, big: nat, i: nat)
    ensures i >= big ==> Late(separator, big, i + 1) == Late(separator, big, i) + {separator + Decimal(i)}
    ensures |all - Late(separator, big, i + 1)| <= |all - Late(separator, big, i)|
    ensures i >= big && separator + Decimal(i) in all ==>
              |all - Late(separator, big, i + 1)| < |all - Late(separator, big, i)|
  {
    var (now, next) := (Late(separator, big, i), Late(separator, big, i + 1));
    var x := separator + Decimal(i);
    if i >= big {
      assert next == now + {x};
      if x in now {
        var j: nat :| big <= j < i && separator + Decimal(j) == x;
        assert Decimal(j) == x[|separator|..] == Decimal(i);
        DecimalInjective(j, i);
      }
      assert all - next == all - now - {x};
    } else {
      assert now == {} == next;
    }
  }

  // --- How long the search takes ---

  /** With a separator that ends in no digit, variants with different numbers differ, however they are truncated. */
  lemma CandidatesDiffer(alias: string, i: nat, j: nat, separator: string, maxLength: nat,
                         truncate: (string, int) -> string)
    requires separator != "" && !IsDigit(separator[|separator| - 1])
    requires Candidate(alias, i, separator, maxLength, truncate) == Candidate(alias, j, separator, maxLength, truncate)
    ensures i == j
  {
    var a := truncate(alias, maxLength - |separator + Decimal(i)|) + separator;
    var b := truncate(alias, maxLength - |separator + Decimal(j)|) + separator;
    assert a + Decimal(i) == Candidate(alias, i, separator, maxLength, truncate);
    assert b + Decimal(j) == Candidate(alias, j, separator, maxLength, truncate);
    NumberAtEnd(a, b, i, j);
  }

  ghost function Tried(alias: string, n: nat, separator: string, maxLength: nat,
                       truncate: (string, int) -> string): set<string> {
    set j: nat | j < n :: Candidate(alias, j, separator, maxLength, truncate)
  }

  lemma {:induction false} TriedCount(alias: string, n: nat, separator: string, maxLength: nat,
                                      truncate: (string, int) -> string)
    requires separator != "" && !IsDigit(separator[|separator| - 1])
    ensures |Tried(alias, n, separator, maxLength, truncate)| == n
  {
    hide Candidate;
    var now := Tried(alias, n, separator, maxLength, truncate);
    if n == 0 {
      assert now == {};
    } else {
      var before := Tried(alias, n - 1, separator, maxLength, truncate);
      var x := Candidate(alias, n - 1, separator, maxLength, truncate);
      TriedCount(alias, n - 1, separator, maxLength, truncate);
      if x in before {
        var j: nat :| j < n - 1 && Candidate(alias, j, separator, maxLength, truncate) == x;
        CandidatesDiffer(alias, j, n - 1, separator, maxLength, truncate);
      }
      assert now == before + {x};
    }
  }

  /** So no more variants are rejected than there are texts in use, and at most one more is tried. */
  lemma SearchIsShort(records: seq<PathAlias>, taken: set<string>, alias: string, source: string, separator: string,
                      maxLength: nat, truncate: (string, int) -> string, i: nat)
    requires separator != "" && !IsDigit(separator[|separator| - 1])
    requires LeastFree(records, taken, alias, source, separator, maxLength, truncate, i)
    ensures i <= |Texts(records) + taken|
  {
    TriedCount(alias, i, separator, maxLength, truncate);
    var tried := Tried(alias, i, separator, maxLength, truncate);
    forall x | x in tried ensures x in Texts(records) + taken {
      var j: nat :| j < i && Candidate(alias, j, separator, maxLength, truncate) == x;
      ReservedTexts(records, taken, x, source);
    }
    SubsetSize(tried, Texts(records) + taken);
  }

  lemma {:induction false} SubsetSize(a: set<string>, b: set<string>)
    requires a <= b
    ensures |a| <= |b|
  {
    if a != {} {
      var x :| x in a;
      SubsetSize(a - {x}, b - {x});
    }
  }

  /** A variant keeps the maximal length exactly as long as its suffix does. */
  lemma CandidateLength(alias: string, i: nat, separator: string, maxLength: nat, truncate: (string, int) -> string)
    requires Truncates(truncate)
    ensures |Candidate(alias, i, separator, maxLength, truncate)| <= maxLength <==>
               |separator + Decimal(i)| <= maxLength
  {
    var n := maxLength - |separator + Decimal(i)|;
    assert |truncate(alias, n)| <= if n < 0 then 0 else n;
  }

  /** With room for the separator and a number as large as the table, the alias found keeps the maximal length. */
  lemma UniqueFits(records: seq<PathAlias>, taken: set<string>, alias: string, source: string, separator: string,
                   maxLength: nat, truncate: (string, int) -> string, r: string)
    requires Truncates(truncate) && Unique(records, taken, alias, source, separator, maxLength, truncate, r)
    requires separator != "" && !IsDigit(separator[|separator| - 1])
    requires |alias| <= maxLength && |separator| + |Decimal(|Texts(records) + taken|)| <= maxLength
    ensures |r| <= maxLength
  {
    if Reserved(records, taken, alias, source) {
      var i: nat :|
        && LeastFree(records, taken, alias, source, separator, maxLength, truncate, i)
        && r == Candidate(alias, i, separator, maxLength, truncate);
      SearchIsShort(records, taken, alias, source, separator, maxLength, truncate, i);
      MoreDigits(i, |Texts(records) + taken|);
      CandidateLength(alias, i, separator, maxLength, truncate);
    }
  }

  /** Without a separator, truncation can make two variants the same: both become `/11`. */
  lemma CandidatesMayCoincide(truncate: (string, int) -> string)
    requires truncate("/111", 2) == "/1" && truncate("/111", 1) == "/"
    ensures Candidate("/111", 1, "", 3, truncate) == Candidate("/111", 11, "", 3, truncate) == "/11"
  {
    assert Decimal(11) == Decimal(1) + [Digit(1)] == "11" && Decimal(1) == "1";
  }

  /** A variant of a short alias is the alias, the separator and the number. */
  lemma CandidateOfShort(alias: string, i: nat, separator: string, maxLength: nat, truncate: (string, int) -> string)
    requires Truncates(truncate) && forall s, n | |s| <= n :: truncate(s, n) == s
    requires |alias + separator + Decimal(i)| <= maxLength
    ensures Candidate(alias, i, separator, maxLength, truncate) == alias + separator + Decimal(i)
  {
  }

  /** The first variant of `/a` is `/a-0`. */
  lemma FirstCandidate(truncate: (string, int) -> string)
    requires forall s, n | |s| <= n :: truncate(s, n) == s
    ensures Candidate("/a", 0, "-", 100, truncate) == "/a-0" && Candidate("/a", 10, "-", 100, truncate) == "/a-10"
  {
    assert Decimal(0) == "0" && Decimal(10) == Decimal(1) + [Digit(0)] == "10";
  }
}
