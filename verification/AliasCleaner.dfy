/** The cleaning of separators and slashes in a generated alias. */
module AliasCleaner {

  // --- The string operations used ---

  function TrimLeft(s: string, c: char): string {
    if s != "" && s[0] == c then TrimLeft(s[1..], c) else s
  }

  function TrimRight(s: string, c: char): string {
    if s != "" && s[|s| - 1] == c then TrimRight(s[..|s| - 1], c) else s
  }

  function Trim(s: string, c: char): string {
    TrimRight(TrimLeft(s, c), c)
  }

  /** Every run of `c` becomes a single one. */
  function Collapse(s: string, c: char): string {
    if s == "" then ""
    else if s[0] == c && |s| > 1 && s[1] == c then Collapse(s[1..], c)
    else [s[0]] + Collapse(s[1..], c)
  }

  /** The number of slashes that `s` begins with. */
  function Slashes(s: string): (n: nat)
    ensures n <= |s|
  {
    if s == "" || s[0] != '/' then 0 else 1 + Slashes(s[1..])
  }

  /**
   * Replaces, from left to right, a separator with slashes on either side, and those slashes, by one slash: the
   * longest run of slashes before it if that is directly followed by the separator, and the whole run after it.
   */
  function JoinSlashes(s: string, c: char): string
    decreases |s|
  {
    if s == "" then ""
    else
      var before := Slashes(s);
      var end := JoinEnd(s, c, before);
      if end > 0 then "/" + JoinSlashes(s[end..], c)
      else if before > 0 then s[..before] + JoinSlashes(s[before..], c)
      else [s[0]] + JoinSlashes(s[1..], c)
  }

  /** Where the separator behind the first slashes ends, with the slashes that follow; 0 if there is nothing to join. */
  function JoinEnd(s: string, c: char, before: nat): (end: nat)
    requires before <= |s|
    ensures end <= |s| && (end > 0 ==> before < end)
  {
    if before < |s| && s[before] == c then
      var end := before + 1 + Slashes(s[before + 1..]);
      if before > 0 || end > 1 then end else 0
    else 0
  }

  /** The settings allow separators of at most one character. */
  function GetCleanSeparators(s: string, separator: string): string
    requires |separator| <= 1
  {
    if separator == "" then s
    else
      var c := separator[0];
      var output := Collapse(Trim(s, c), c);
      if c != '/' then JoinSlashes(output, c) else "/" + output
  }

  /** Stands for the word-safe truncation, of which only the length and the prefix are known. */
  ghost predicate Truncates(truncate: (string, int) -> string) {
    forall s, n :: truncate(s, n) <= s && |truncate(s, n)| <= if n < 0 then 0 else n
  }

  function CleanAlias(alias: string, separator: string, maxLength: nat, truncate: (string, int) -> string): string
    requires |separator| <= 1
  {
    truncate(GetCleanSeparators(GetCleanSeparators(alias, separator), "/"), maxLength)
  }

  // --- What cleaning leaves ---

  predicate NoEdge(s: string, c: char) {
    s != "" ==> s[0] != c && s[|s| - 1] != c
  }

  predicate NoDouble(s: string, c: char) {
    forall i | 0 < i < |s| :: !(s[i - 1] == c && s[i] == c)
  }

  /** `s` without the characters in `drop`. */
  function Others(s: string, drop: set<char>): string {
    if s == "" then "" else (if s[0] in drop then "" else [s[0]]) + Others(s[1..], drop)
  }

  lemma {:induction false} OthersConcat(a: string, b: string, drop: set<char>)
    ensures Others(a + b, drop) == Others(a, drop) + Others(b, drop)
  {
    if a == "" {
      assert a + b == b;
    } else {
      assert (a + b)[1..] == a[1..] + b;
      OthersConcat(a[1..], b, drop);
    }
  }

  lemma {:induction false} OthersNone(s: string, drop: set<char>)
    requires forall i | 0 <= i < |s| :: s[i] in drop
    ensures Others(s, drop) == ""
  {
    if s != "" { OthersNone(s[1..], drop); }
  }

  lemma {:induction false} TrimLeftClean(s: string, c: char, drop: set<char>)
    requires c in drop
    ensures var r := TrimLeft(s, c); (r != "" ==> r[0] != c) && Others(r, drop) == Others(s, drop)
  {
    if s != "" && s[0] == c { TrimLeftClean(s[1..], c, drop); }
  }

  lemma {:induction false} TrimRightClean(s: string, c: char, drop: set<char>)
    requires c in drop
    ensures var r := TrimRight(s, c); (r != "" ==> r[|r| - 1] != c) && r <= s && Others(r, drop) == Others(s, drop)
  {
    if s != "" && s[|s| - 1] == c {
      TrimRightClean(s[..|s| - 1], c, drop);
      assert s == s[..|s| - 1] + [c];
      OthersConcat(s[..|s| - 1], [c], drop);
      OthersNone([c], drop);
    }
  }

  lemma TrimClean(s: string, c: char, drop: set<char>)
    requires c in drop
    ensures NoEdge(Trim(s, c), c) && Others(Trim(s, c), drop) == Others(s, drop)
  {
    TrimLeftClean(s, c, drop);
    TrimRightClean(TrimLeft(s, c), c, drop);
  }

  lemma {:induction false} CollapseClean(s: string, c: char, drop: set<char>)
    requires c in drop
    ensures var r := Collapse(s, c);
            && NoDouble(r, c) && Others(r, drop) == Others(s, drop) && (s == "" <==> r == "")
            && (s != "" ==> r[0] == s[0] && r[|r| - 1] == s[|s| - 1])
  {
    CollapseNone(c);
    hide *;
    if s == "" {
      NoDoubleNone(c);
    } else {
      CollapseClean(s[1..], c, drop);
      CollapseUnfold(s, c);
      assert s == [s[0]] + s[1..];
      OthersConcat([s[0]], s[1..], drop);
      var rest := Collapse(s[1..], c);
      if s[0] == c && |s| > 1 && s[1] == c {
        OthersOne(s[0], drop);
      } else {
        OthersConcat([s[0]], rest, drop);
        NoDoubleOne(s[0], rest, c);
      }
    }
  }

  lemma CollapseNone(c: char)
    ensures Collapse("", c) == ""
  {
  }

  lemma NoDoubleNone(c: char)
    ensures NoDouble("", c)
  {
  }

  lemma CollapseUnfold(s: string, c: char)
    requires s != ""
    ensures Collapse(s, c) ==
              if s[0] == c && |s| > 1 && s[1] == c then Collapse(s[1..], c) else [s[0]] + Collapse(s[1..], c)
  {
  }

  lemma OthersOne(x: char, drop: set<char>)
    requires x in drop
    ensures Others([x], drop) == ""
  {
  }

  lemma NoDoubleOne(x: char, rest: string, c: char)
    requires NoDouble(rest, c) && (x == c && rest != "" ==> rest[0] != c)
    ensures NoDouble([x] + rest, c)
  {
    var r := [x] + rest;
    forall i | 0 < i < |r| ensures !(r[i - 1] == c && r[i] == c) {
      if i > 1 { assert !(rest[i - 2] == c && rest[i - 1] == c); }
    }
  }

  /** `s` has no two separators next to each other and none at the end, and the other characters are those of `t`. */
  ghost predicate Tidy(s: string, c: char, drop: set<char>, t: string) {
    NoDouble(s, c) && (s != "" ==> s[|s| - 1] != c) && Others(s, drop) == Others(t, drop)
  }

  datatype First =
    | Joined(before: nat, k: nat)
    | Kept(k: nat)
    | Plain

  /** The number of characters that joining takes at once, and what it puts for them. */
  function Taken(first: First): nat {
    match first case Joined(_, k) => k case Kept(k) => k case Plain => 1
  }

  function Front(s: string, first: First): string
    requires s != "" && Taken(first) <= |s|
  {
    match first case Joined(_, _) => "/" case Kept(k) => s[..k] case Plain => [s[0]]
  }

  /** A separator with the slashes around it, a run of slashes that no separator follows, or any other character. */
  ghost predicate FirstIs(s: string, c: char, first: First)
    requires s != ""
  {
    && Taken(first) <= |s|
    && match first
       case Joined(before, k) =>
         && before < k && k > 1 && s[before] == c && (k < |s| ==> s[k] != '/')
         && forall i | 0 <= i < k && i != before :: s[i] == '/'
       case Kept(k) =>
         && 0 < k && (k < |s| ==> s[k] != '/' && s[k] != c)
         && forall i | 0 <= i < k :: s[i] == '/'
       case Plain => s[0] != '/' && (s[0] == c && |s| > 1 ==> s[1] != '/')
  }

  lemma JoinFirst(s: string, c: char) returns (first: First)
    requires c != '/' && s != ""
    ensures FirstIs(s, c, first) && 0 < Taken(first) <= |s|
    ensures JoinSlashes(s, c) == Front(s, first) + JoinSlashes(s[Taken(first)..], c)
  {
    var before, k := SlashCounts(s);
    JoinUnfold(s, c, before);
    JoinEnds(s, c, before, k);
    hide JoinSlashes, Slashes, JoinEnd;
    if before < |s| && s[before] == c && (before > 0 || k > 1) {
      first := Joined(before, k);
    } else if before > 0 {
      first := Kept(before);
    } else {
      first := Plain;
    }
  }

  /** The slashes in front, and the end of those behind the character after them. */
  lemma SlashCounts(s: string) returns (before: nat, k: nat)
    requires s != ""
    ensures before == Slashes(s) <= |s|
    ensures (forall i | 0 <= i < before :: s[i] == '/') && (before < |s| ==> s[before] != '/')
    ensures before < |s| ==>
              && before < k <= |s| && k == before + 1 + Slashes(s[before + 1..])
              && (forall i | before + 1 <= i < k :: s[i] == '/') && (k < |s| ==> s[k] != '/')
  {
    before, k := Slashes(s), 0;
    SlashesBefore(s);
    if before < |s| {
      SlashesFrom(s, before + 1);
      k := before + 1 + Slashes(s[before + 1..]);
    }
  }

  lemma JoinUnfold(s: string, c: char, before: nat)
    requires s != "" && before == Slashes(s)
    ensures var end := JoinEnd(s, c, before);
            JoinSlashes(s, c) ==
              if end > 0 then "/" + JoinSlashes(s[end..], c)
              else if before > 0 then s[..before] + JoinSlashes(s[before..], c)
              else [s[0]] + JoinSlashes(s[1..], c)
  {
    hide Slashes, JoinEnd;
  }

  lemma JoinEnds(s: string, c: char, before: nat, k: nat)
    requires before <= |s| && (before < |s| ==> k == before + 1 + Slashes(s[before + 1..]))
    ensures JoinEnd(s, c, before) == if before < |s| && s[before] == c && (before > 0 || k > 1) then k else 0
  {
    hide Slashes;
  }

  lemma SlashesBefore(s: string)
    ensures var n := Slashes(s);
            n <= |s| && (forall i | 0 <= i < n :: s[i] == '/') && (n < |s| ==> s[n] != '/')
  {
    SlashesFrom(s, 0);
    assert s[0..] == s;
  }

  /** The run of slashes from number `k` on. */
  lemma {:induction false} SlashesFrom(s: string, k: nat)
    requires k <= |s|
    ensures var n := Slashes(s[k..]);
            k + n <= |s| && (forall i | k <= i < k + n :: s[i] == '/') && (k + n < |s| ==> s[k + n] != '/')
    decreases |s| - k
  {
    if k < |s| && s[k] == '/' {
      SlashesFrom(s, k + 1);
      assert s[k..][1..] == s[k + 1..];
    }
  }

  ghost predicate AllIn(s: string, some: set<char>) {
    forall i | 0 <= i < |s| :: s[i] in some
  }

  /** Joining slashes leaves no separator at the edges and no two next to each other where there were none. */
  lemma {:induction false} JoinClean(s: string, c: char, drop: set<char>)
    requires c != '/' && drop == {c, '/'} && NoDouble(s, c) && (s != "" ==> s[|s| - 1] != c)
    ensures Tidy(JoinSlashes(s, c), c, drop, s) && (s != "" ==> JoinSlashes(s, c) != "")
    ensures JoinSlashes(s, c) != "" && JoinSlashes(s, c)[0] == c ==> s != "" && s[0] == c
    decreases |s|
  {
    JoinNothing(c);
    hide *;
    if s == "" {
      NothingTidy(c, drop);
    } else {
      var first := JoinFirst(s, c);
      var k := Taken(first);
      SuffixClean(s, k, c);
      JoinClean(s[k..], c, drop);
      FirstParts(s, c, first);
      if first.Plain? {
        FirstTwo(s, c);
        TidyOne(s, JoinSlashes(s[1..], c), c, drop);
      } else {
        TidyFront(s, k, Front(s, first), JoinSlashes(s[k..], c), c, drop);
      }
    }
  }

  lemma FirstParts(s: string, c: char, first: First)
    requires s != "" && FirstIs(s, c, first)
    ensures first.Plain? ==> Taken(first) == 1 && Front(s, first) == [s[0]]
    ensures !first.Plain? ==>
               AllIn(s[..Taken(first)], {c, '/'}) && AllIn(Front(s, first), {'/'}) && Front(s, first) != ""
  {
  }

  lemma JoinNothing(c: char)
    ensures JoinSlashes("", c) == ""
  {
  }

  lemma NothingTidy(c: char, drop: set<char>)
    ensures Tidy("", c, drop, "")
  {
  }

  lemma FirstTwo(s: string, c: char)
    requires s != "" && NoDouble(s, c)
    ensures s[0] == c && s[1..] != "" ==> s[1..][0] != c
  {
  }

  /** Separators and slashes in front give way to slashes. */
  lemma TidyFront(s: string, k: nat, front: string, rest: string, c: char, drop: set<char>)
    requires c != '/' && drop == {c, '/'} && k <= |s| && AllIn(s[..k], drop)
    requires front != "" && AllIn(front, {'/'}) && Tidy(rest, c, drop, s[k..])
    ensures Tidy(front + rest, c, drop, s) && front + rest != "" && (front + rest)[0] != c
  {
    SkippedOthers(s, k, drop);
    OthersConcat(front, rest, drop);
    OthersNone(front, drop);
    hide Others, Tidy;
    TidyParts(rest, c, drop, s[k..]);
    forall i | 0 < i < |front + rest| ensures !((front + rest)[i - 1] == c && (front + rest)[i] == c) {
      if i <= |front| {
        assert front[i - 1] in {'/'};
      } else {
        assert !(rest[i - |front| - 1] == c && rest[i - |front|] == c);
      }
    }
    assert front[|front| - 1] in {'/'} && front[0] in {'/'};
    TidyFrom(front + rest, c, drop, s);
  }

  lemma TidyParts(s: string, c: char, drop: set<char>, t: string)
    requires Tidy(s, c, drop, t)
    ensures NoDouble(s, c) && (s != "" ==> s[|s| - 1] != c) && Others(s, drop) == Others(t, drop)
  {
  }

  lemma TidyFrom(s: string, c: char, drop: set<char>, t: string)
    requires NoDouble(s, c) && (s != "" ==> s[|s| - 1] != c) && Others(s, drop) == Others(t, drop)
    ensures Tidy(s, c, drop, t)
  {
  }

  lemma TidyOne(s: string, rest: string, c: char, drop: set<char>)
    requires s != "" && Tidy(rest, c, drop, s[1..])
    requires s[0] == c ==> rest != "" && rest[0] != c
    ensures Tidy([s[0]] + rest, c, drop, s) && [s[0]] + rest != "" && ([s[0]] + rest)[0] == s[0]
  {
    assert s == [s[0]] + s[1..];
    OthersConcat([s[0]], rest, drop);
    OthersConcat([s[0]], s[1..], drop);
    var r := [s[0]] + rest;
    forall i | 0 < i < |r| ensures !(r[i - 1] == c && r[i] == c) {
      if i > 1 { assert !(rest[i - 2] == c && rest[i - 1] == c); }
    }
  }

  lemma SuffixClean(s: string, k: nat, c: char)
    requires k <= |s| && NoDouble(s, c) && (s != "" ==> s[|s| - 1] != c)
    ensures NoDouble(s[k..], c) && (s[k..] != "" ==> s[k..][|s[k..]| - 1] != c)
  {
    forall i | 0 < i < |s[k..]| ensures !(s[k..][i - 1] == c && s[k..][i] == c) {
      assert !(s[k + i - 1] == c && s[k + i] == c);
    }
  }

  lemma SkippedOthers(s: string, k: nat, drop: set<char>)
    requires k <= |s| && forall i | 0 <= i < k :: s[i] in drop
    ensures Others(s, drop) == Others(s[k..], drop)
  {
    assert s == s[..k] + s[k..];
    OthersConcat(s[..k], s[k..], drop);
    OthersNone(s[..k], drop);
  }

  /**
   * For a one-character separator other than a slash, nothing but separators and slashes is lost or reordered, and
   * no separator is left at the start, at the end or next to another.
   */
  lemma SeparatorsCleaned(s: string, c: char)
    requires c != '/'
    ensures var r := GetCleanSeparators(s, [c]);
            NoEdge(r, c) && NoDouble(r, c) && Others(r, {c, '/'}) == Others(s, {c, '/'})
  {
    CleanIs(s, c);
    hide *;
    TrimClean(s, c, {c, '/'});
    CollapseClean(Trim(s, c), c, {c, '/'});
    CollapsedEdges(Trim(s, c), c);
    JoinClean(Collapse(Trim(s, c), c), c, {c, '/'});
    TidyParts(JoinSlashes(Collapse(Trim(s, c), c), c), c, {c, '/'}, Collapse(Trim(s, c), c));
    NoEdgeFrom(JoinSlashes(Collapse(Trim(s, c), c), c), c);
  }

  lemma CollapsedEdges(s: string, c: char)
    requires NoEdge(s, c)
    ensures Collapse(s, c) != "" ==> Collapse(s, c)[0] != c && Collapse(s, c)[|Collapse(s, c)| - 1] != c
  {
    CollapseClean(s, c, {c});
  }

  lemma NoEdgeFrom(s: string, c: char)
    requires s != "" ==> s[0] != c && s[|s| - 1] != c
    ensures NoEdge(s, c)
  {
  }

  /** Slashes are cleaned into one leading slash, single slashes inside, and none at the end of anything longer. */
  lemma SlashesCleaned(s: string)
    ensures var r := GetCleanSeparators(s, "/");
            && r != "" && r[0] == '/' && NoDouble(r, '/') && (r != "/" ==> r[|r| - 1] != '/')
            && Others(r, {'/'}) == Others(s, {'/'})
            && GetCleanSeparators(r, "/") == r
  {
    TrimClean(s, '/', {'/'});
    CollapseClean(Trim(s, '/'), '/', {'/'});
    var t := Collapse(Trim(s, '/'), '/');
    OthersConcat("/", t, {'/'});
    OthersNone("/", {'/'});
    assert ("/" + t)[1..] == t;
    TrimNothing(t, '/');
    CollapseNothing(t, '/');
  }

  lemma TrimNothing(t: string, c: char)
    requires NoEdge(t, c)
    ensures Trim(t, c) == t && TrimLeft([c] + t, c) == t
  {
    assert ([c] + t)[1..] == t;
  }

  lemma {:induction false} CollapseNothing(t: string, c: char)
    requires NoDouble(t, c)
    ensures Collapse(t, c) == t
  {
    if t != "" {
      if |t| > 1 { assert !(t[0] == c && t[1] == c); }
      forall i | 0 < i < |t[1..]| ensures !(t[1..][i - 1] == c && t[1..][i] == c) {
        assert !(t[i] == c && t[i + 1] == c);
      }
      CollapseNothing(t[1..], c);
    }
  }

  // --- Separators beside slashes ---

  predicate Pair(x: char, y: char, c: char) {
    (x == c && y == '/') || (x == '/' && y == c)
  }

  predicate BesideAt(s: string, c: char, k: int) {
    0 <= k && k + 1 < |s| && Pair(s[k], s[k + 1], c)
  }

  /** Somewhere a separator stands beside a slash. */
  ghost predicate Beside(s: string, c: char) {
    exists k :: BesideAt(s, c, k)
  }

  predicate ChainAt(s: string, c: char, i: int, j: int) {
    && 0 <= i && i + 1 < j && j + 1 < |s| && s[i] == c && s[j] == c && s[j + 1] != '/'
    && forall p | i < p < j :: s[p] == '/'
  }

  /** Somewhere slashes stand between two separators, and no slash follows the second. */
  ghost predicate Chained(s: string, c: char) {
    exists i, j :: ChainAt(s, c, i, j)
  }

  lemma BesideConcat(a: string, b: string, c: char)
    requires a != ""
    ensures Beside(a + b, c) <==> Beside(a, c) || Beside(b, c) || (b != "" && Pair(a[|a| - 1], b[0], c))
  {
    var s := a + b;
    if k :| BesideAt(s, c, k) {
      assert k + 1 < |a| ==> BesideAt(a, c, k);
      assert k >= |a| ==> BesideAt(b, c, k - |a|);
    }
    if k :| BesideAt(a, c, k) { assert BesideAt(s, c, k); }
    if k :| BesideAt(b, c, k) { assert BesideAt(s, c, k + |a|); }
    if b != "" && Pair(a[|a| - 1], b[0], c) { assert BesideAt(s, c, |a| - 1); }
  }

  lemma BesideNone(a: string, c: char)
    requires |a| <= 1 || forall i | 0 <= i < |a| :: a[i] != c
    ensures !Beside(a, c)
  {
  }

  lemma ChainLater(s: string, c: char, k: nat)
    requires k <= |s|
    ensures Chained(s[k..], c) <==> exists i, j :: k <= i && ChainAt(s, c, i, j)
  {
    if i, j :| ChainAt(s[k..], c, i, j) {
      forall p | i + k < p < j + k ensures s[p] == '/' { assert s[k..][p - k] == '/'; }
      assert ChainAt(s, c, i + k, j + k);
    }
    if i, j :| k <= i && ChainAt(s, c, i, j) {
      assert ChainAt(s[k..], c, i - k, j - k);
    }
  }

  /** A separator kept at the front is one that no slash follows. */
  lemma KeptFirst(s: string, c: char)
    requires c != '/' && s != ""
    ensures JoinSlashes(s, c) != ""
    ensures JoinSlashes(s, c)[0] == c <==> s[0] == c && (|s| == 1 || s[1] != '/')
    ensures JoinSlashes(s, c)[0] == '/' <==> s[0] == '/' || (s[0] == c && |s| > 1 && s[1] == '/')
  {
  }

  /** Joining leaves a separator beside a slash exactly where one separator follows another across slashes. */
  lemma {:induction false} BesideIffChained(s: string, c: char)
    requires c != '/' && NoDouble(s, c) && (s != "" ==> s[|s| - 1] != c)
    ensures Beside(JoinSlashes(s, c), c) <==> Chained(s, c)
    decreases |s|
  {
    JoinNothing(c);
    BesideNone("", c);
    hide *;
    if s == "" {
      ChainNone(c);
    } else {
      var first := JoinFirst(s, c);
      SuffixClean(s, Taken(first), c);
      BesideIffChained(s[Taken(first)..], c);
      ChainPastFirst(s, c, first);
    }
  }

  lemma ChainPastFirst(s: string, c: char, first: First)
    requires c != '/' && s != "" && FirstIs(s, c, first) && NoDouble(s, c) && s[|s| - 1] != c
    requires Beside(JoinSlashes(s[Taken(first)..], c), c) <==> Chained(s[Taken(first)..], c)
    ensures Beside(Front(s, first) + JoinSlashes(s[Taken(first)..], c), c) <==> Chained(s, c)
  {
    hide Beside, Chained, JoinSlashes, NoDouble;
    match first
    case Joined(before, k) => ChainAcross(s, c, before, k);
    case Kept(k) => ChainPast(s, c, k);
    case Plain =>
      LastOfOne(s, c);
      ChainPastOne(s, c);
  }

  lemma LastOfOne(s: string, c: char)
    requires s != "" && s[|s| - 1] != c
    ensures s[0] == c ==> |s| > 1
  {
  }

  lemma ChainNone(c: char)
    ensures !Chained("", c)
  {
  }

  lemma ChainAcross(s: string, c: char, before: nat, end: nat)
    requires c != '/' && NoDouble(s, c) && s != "" && s[|s| - 1] != c
    requires before < end <= |s| && s[before] == c && (forall i | 0 <= i < before :: s[i] == '/')
    requires (forall i | before < i < end :: s[i] == '/') && (end < |s| ==> s[end] != '/')
    requires Beside(JoinSlashes(s[end..], c), c) <==> Chained(s[end..], c)
    ensures Beside("/" + JoinSlashes(s[end..], c), c) <==> Chained(s, c)
  {
    hide Beside, Chained, JoinSlashes;
    var rest := JoinSlashes(s[end..], c);
    BesideConcat("/", rest, c);
    BesideNone("/", c);
    ChainLater(s, c, end);
    if end < |s| {
      KeptFirst(s[end..], c);
      FollowedAt(s, c, before, end);
      ChainSplit(s, c, before, end);
    } else {
      JoinNothing(c);
      ChainSplit(s, c, before, end);
    }
  }

  /** Right behind the slashes that follow a separator, the next separator closes a chain unless slashes follow it. */
  lemma FollowedAt(s: string, c: char, before: nat, end: nat)
    requires before < end < |s| && c != '/' && NoDouble(s, c) && s[|s| - 1] != c && s[before] == c
    requires forall i | before < i < end :: s[i] == '/'
    ensures s[end..] != "" && s[end..][0] == s[end] && (|s[end..]| > 1 ==> s[end..][1] == s[end + 1])
    ensures s[end] == c && (|s[end..]| == 1 || s[end + 1] != '/') <==> ChainAt(s, c, before, end)
  {
    assert !(s[end - 1] == c && s[end] == c);
  }

  lemma ChainSplit(s: string, c: char, before: nat, end: nat)
    requires c != '/' && before < end <= |s| && s[before] == c && (forall i | 0 <= i < before :: s[i] == '/')
    requires (forall i | before < i < end :: s[i] == '/') && (end < |s| ==> s[end] != '/')
    ensures Chained(s, c) <==> ChainAt(s, c, before, end) || exists i, j :: end <= i && ChainAt(s, c, i, j)
  {
    if i, j :| ChainAt(s, c, i, j) {
      assert i < end ==> i == before && j == end;
    }
  }

  lemma ChainPast(s: string, c: char, before: nat)
    requires c != '/' && 0 < before <= |s| && (forall i | 0 <= i < before :: s[i] == '/')
    requires before < |s| ==> s[before] != '/' && s[before] != c
    requires Beside(JoinSlashes(s[before..], c), c) <==> Chained(s[before..], c)
    ensures Beside(s[..before] + JoinSlashes(s[before..], c), c) <==> Chained(s, c)
  {
    hide Beside, JoinSlashes;
    BesideConcat(s[..before], JoinSlashes(s[before..], c), c);
    BesideNone(s[..before], c);
    ChainLater(s, c, before);
    if before < |s| { KeptFirst(s[before..], c); } else { JoinNothing(c); }
    if i, j :| ChainAt(s, c, i, j) { assert i >= before; }
  }

  lemma ChainPastOne(s: string, c: char)
    requires c != '/' && s != "" && s[0] != '/' && NoDouble(s, c) && (s[0] == c ==> |s| > 1 && s[1] != '/')
    requires Beside(JoinSlashes(s[1..], c), c) <==> Chained(s[1..], c)
    ensures Beside([s[0]] + JoinSlashes(s[1..], c), c) <==> Chained(s, c)
  {
    hide Beside, JoinSlashes;
    BesideConcat([s[0]], JoinSlashes(s[1..], c), c);
    BesideNone([s[0]], c);
    ChainLater(s, c, 1);
    if |s| > 1 {
      assert !(s[0] == c && s[1] == c);
      KeptFirst(s[1..], c);
    } else {
      JoinNothing(c);
    }
    if i, j :| ChainAt(s, c, i, j) { assert i >= 1 by { assert s[i + 1] == '/'; } }
  }

  /**
   * When cleaning leaves a separator beside a slash: exactly when the text, trimmed and with runs of separators
   * collapsed, has slashes between two separators of which the second is not followed by a slash.
   */
  lemma SeparatorBesideSlashIff(s: string, c: char)
    requires c != '/'
    ensures Beside(GetCleanSeparators(s, [c]), c) <==> Chained(Collapse(Trim(s, c), c), c)
  {
    TrimClean(s, c, {c});
    CollapseClean(Trim(s, c), c, {c});
    BesideIffChained(Collapse(Trim(s, c), c), c);
  }

  ghost predicate NoSlashBehind(s: string, c: char) {
    forall k | 0 <= k && k + 1 < |s| :: s[k] == c ==> s[k + 1] != '/'
  }

  /** Joining leaves no slash right behind a separator. */
  lemma {:induction false} JoinLeavesNoSlashBehind(s: string, c: char)
    requires c != '/' && NoDouble(s, c) && (s != "" ==> s[|s| - 1] != c)
    ensures NoSlashBehind(JoinSlashes(s, c), c)
    decreases |s|
  {
    JoinNothing(c);
    NoSlashBehindNothing(c);
    hide *;
    if s != "" {
      var first := JoinFirst(s, c);
      var rest := s[Taken(first)..];
      SuffixClean(s, Taken(first), c);
      JoinLeavesNoSlashBehind(rest, c);
      if rest == "" {
        JoinNothing(c);
      } else {
        KeptFirst(rest, c);
      }
      FrontPasses(s, c, first, JoinSlashes(rest, c));
    }
  }

  lemma NoSlashBehindNothing(c: char)
    ensures NoSlashBehind("", c)
  {
  }

  lemma FrontPasses(s: string, c: char, first: First, joined: string)
    requires c != '/' && s != "" && FirstIs(s, c, first) && NoDouble(s, c) && NoSlashBehind(joined, c)
    requires s[Taken(first)..] == "" ==> joined == ""
    requires var rest := s[Taken(first)..];
             rest != "" ==>
               && joined != ""
               && (joined[0] == '/' <==> rest[0] == '/' || (rest[0] == c && |rest| > 1 && rest[1] == '/'))
    ensures NoSlashBehind(Front(s, first) + joined, c)
  {
    var front := Front(s, first);
    forall k | 0 <= k && k + 1 < |front + joined| && (front + joined)[k] == c ensures (front + joined)[k + 1] != '/' {
      if k >= |front| {
        assert joined[k - |front|] == c;
      } else {
        assert first.Plain?;
        assert s[1..] != "" && s[1..][0] == s[1];
        assert !(s[0] == c && s[1] == c);
      }
    }
  }

  /** Text without edges, doubles and slashes behind separators has no chain of separators across slashes. */
  lemma NoChain(s: string, c: char)
    requires c != '/' && NoSlashBehind(s, c)
    ensures !Chained(s, c)
  {
    forall i, j ensures !ChainAt(s, c, i, j) {
      assert 0 <= i && i + 1 < |s| && s[i] == c ==> s[i + 1] != '/';
    }
  }

  /** Cleaning twice, as is done for token values, leaves no separator beside a slash. */
  lemma CleanedTwice(s: string, c: char)
    requires c != '/'
    ensures !Beside(GetCleanSeparators(GetCleanSeparators(s, [c]), [c]), c)
  {
    hide *;
    SeparatorsCleaned(s, c);
    CleanIs(s, c);
    CleanedEdges(s, c);
    JoinLeavesNoSlashBehind(Collapse(Trim(s, c), c), c);
    var once := GetCleanSeparators(s, [c]);
    TrimNothing(once, c);
    CollapseNothing(once, c);
    NoChain(once, c);
    SeparatorBesideSlashIff(once, c);
  }

  lemma CleanedEdges(s: string, c: char)
    ensures var t := Collapse(Trim(s, c), c); NoDouble(t, c) && (t != "" ==> t[|t| - 1] != c)
  {
    TrimClean(s, c, {c});
    CollapseClean(Trim(s, c), c, {c});
    CollapsedEdges(Trim(s, c), c);
  }

  /** Characters that joining leaves alone. */
  predicate PlainText(s: string, c: char) {
    forall i | 0 <= i < |s| :: s[i] != c && s[i] != '/'
  }

  lemma {:induction false} JoinPassesPlain(a: string, rest: string, c: char)
    requires PlainText(a, c)
    ensures JoinSlashes(a + rest, c) == a + JoinSlashes(rest, c)
  {
    if a == "" {
      assert a + rest == rest;
    } else {
      PlainRest(a, c);
      hide *;
      FrontAndRest(a, rest);
      FrontAndRest(a, JoinSlashes(rest, c));
      JoinPassesPlain(a[1..], rest, c);
      JoinPlainChar(a + rest, c);
    }
  }

  lemma FrontAndRest(a: string, rest: string)
    requires a != ""
    ensures (a + rest)[1..] == a[1..] + rest && (a + rest)[0] == a[0] && [a[0]] + (a[1..] + rest) == a + rest
  {
  }

  lemma PlainRest(a: string, c: char)
    requires a != "" && PlainText(a, c)
    ensures a[0] != c && a[0] != '/' && PlainText(a[1..], c)
  {
  }

  lemma JoinPlainChar(s: string, c: char)
    requires s != "" && s[0] != c && s[0] != '/'
    ensures JoinSlashes(s, c) == [s[0]] + JoinSlashes(s[1..], c)
  {
    assert Slashes(s) == 0;
    JoinUnfold(s, c, 0);
  }

  /**
   * A separator may stay behind a slash: with `-` for the separator, `a/-/-b` becomes `a/-b`. The slash that stands
   * for one separator hides the next one.
   */
  lemma SeparatorStaysBehindSlash(a: string, b: string, c: char)
    requires c != '/' && a != "" && b != "" && PlainText(a, c) && PlainText(b, c)
    ensures GetCleanSeparators(a + ['/', c, '/', c] + b, [c]) == a + ['/', c] + b
  {
    CleanIs(a + ['/', c, '/', c] + b, c);
    hide *;
    var tail, middle := ExampleParts(a, b, c);
    ExampleUntouched(a, b, c);
    JoinPassesPlain(a, middle, c);
    ExampleTail(b, c);
    JoinTakesThree(middle, c);
  }

  lemma ExampleParts(a: string, b: string, c: char) returns (tail: string, middle: string)
    requires b != ""
    ensures tail == [c] + b && middle == ['/', c, '/'] + ([c] + b) && a + ['/', c, '/', c] + b == a + middle
    ensures |middle| > 3 && middle[0] == '/' && middle[1] == c && middle[2] == '/' && middle[3] == c
    ensures middle[3..] == tail
    ensures a + ("/" + tail) == a + ['/', c] + b
  {
    tail := [c] + b;
    middle := ['/', c, '/'] + tail;
  }

  lemma CleanIs(s: string, c: char)
    requires c != '/'
    ensures GetCleanSeparators(s, [c]) == JoinSlashes(Collapse(Trim(s, c), c), c)
  {
    hide JoinSlashes, Collapse, Trim;
  }

  lemma ExampleTail(b: string, c: char)
    requires c != '/' && b != "" && PlainText(b, c)
    ensures JoinSlashes([c] + b, c) == [c] + b
  {
    JoinNothing(c);
    FirstPlain(b, c);
    hide *;
    JoinPassesPlain(b, "", c);
    assert b + "" == b;
    var tail := [c] + b;
    assert tail[1..] == b;
    JoinKeepsOne(tail, c);
  }

  lemma FirstPlain(b: string, c: char)
    requires b != "" && PlainText(b, c)
    ensures b[0] != '/'
  {
  }

  lemma ExampleUntouched(a: string, b: string, c: char)
    requires c != '/' && a != "" && b != "" && PlainText(a, c) && PlainText(b, c)
    ensures var s := a + (['/', c, '/'] + ([c] + b)); Collapse(Trim(s, c), c) == s
  {
    hide Collapse, Trim;
    var s := a + (['/', c, '/'] + ([c] + b));
    assert s[0] == a[0] && s[|s| - 1] == b[|b| - 1];
    TrimNothing(s, c);
    CollapseNothing(s, c);
  }

  lemma JoinKeepsOne(tail: string, c: char)
    requires |tail| > 1 && c != '/' && tail[0] == c && tail[1] != '/'
    ensures JoinSlashes(tail, c) == [c] + JoinSlashes(tail[1..], c)
  {
    assert tail[1..][0] == tail[1];
    assert Slashes(tail[1..]) == 0;
    JoinUnfold(tail, c, 0);
  }

  lemma JoinTakesThree(s: string, c: char)
    requires |s| > 3 && c != '/' && s[0] == '/' && s[1] == c && s[2] == '/' && s[3] == c
    ensures JoinSlashes(s, c) == "/" + JoinSlashes(s[3..], c)
  {
    assert s[1..][0] == c && s[2..][0] == '/' && s[2..][1..][0] == c;
    assert Slashes(s[1..]) == 0 && Slashes(s) == 1;
    assert Slashes(s[2..][1..]) == 0 && Slashes(s[2..]) == 1;
    JoinEnds(s, c, 1, 3);
    JoinUnfold(s, c, 1);
  }

  /**
   * A cleaned alias is a prefix of one that starts with a slash, has single slashes only and no slash at the end,
   * so it is empty only if the truncation leaves nothing.
   */
  lemma AliasCleaned(alias: string, separator: string, maxLength: nat, truncate: (string, int) -> string)
    requires |separator| <= 1 && Truncates(truncate)
    ensures var r := CleanAlias(alias, separator, maxLength, truncate);
            |r| <= maxLength && (r != "" ==> r[0] == '/') && NoDouble(r, '/')
    ensures var full := GetCleanSeparators(GetCleanSeparators(alias, separator), "/");
            full != "" && CleanAlias(alias, separator, maxLength, truncate) <= full
  {
    SlashesCleaned(GetCleanSeparators(alias, separator));
    var full := GetCleanSeparators(GetCleanSeparators(alias, separator), "/");
    assert truncate(full, maxLength) <= full && |truncate(full, maxLength)| <= maxLength;
  }

  // --- The alias that is nothing but a slash ---

  /** Nothing but separators and slashes. */
  predicate SeparatorsOnly(s: string, separator: string) {
    forall i | 0 <= i < |s| :: s[i] == '/' || [s[i]] == separator
  }

  lemma {:induction false} OthersEmpty(s: string, drop: set<char>)
    ensures Others(s, drop) == "" <==> AllIn(s, drop)
  {
    if s != "" {
      OthersEmpty(s[1..], drop);
      assert AllIn(s, drop) <==> s[0] in drop && AllIn(s[1..], drop) by {
        forall i | 0 < i < |s| ensures s[i] == s[1..][i - 1] {}
      }
    }
  }

  lemma SlashesToOne(s: string)
    ensures GetCleanSeparators(s, "/") == "/" <==> AllIn(s, {'/'})
  {
    var r := GetCleanSeparators(s, "/");
    SlashesCleaned(s);
    assert |r| > 1 ==> r[0] != '/' || r[1] != '/';
    OthersEmpty(r, {'/'});
    OthersEmpty(s, {'/'});
    hide GetCleanSeparators, Others;
  }

  lemma NothingChained(t: string, c: char)
    requires c != '/' && AllIn(t, {c, '/'}) && NoDouble(t, c)
    ensures !Chained(t, c)
  {
    forall i, j ensures !ChainAt(t, c, i, j) {
      assert 0 <= j && j + 1 < |t| && t[j] == c ==> t[j + 1] != c;
    }
  }

  lemma AloneIsBeside(s: string, c: char, i: nat)
    requires c != '/' && AllIn(s, {c, '/'}) && NoEdge(s, c) && NoDouble(s, c) && i < |s| && s[i] == c
    ensures Beside(s, c)
  {
    assert s[i - 1] in {c, '/'} && s[i - 1] != c;
    assert BesideAt(s, c, i - 1);
  }

  /**
   * Cleaning a text with a separator leaves nothing but slashes exactly if it held nothing but separators and
   * slashes.
   */
  lemma CleanedToSlashes(s: string, c: char)
    requires c != '/'
    ensures AllIn(GetCleanSeparators(s, [c]), {'/'}) <==> AllIn(s, {c, '/'})
  {
    var r, t := GetCleanSeparators(s, [c]), Collapse(Trim(s, c), c);
    SeparatorsCleaned(s, c);
    SeparatorBesideSlashIff(s, c);
    TrimClean(s, c, {c, '/'});
    CollapseClean(Trim(s, c), c, {c, '/'});
    OthersEmpty(s, {c, '/'});
    OthersEmpty(t, {c, '/'});
    OthersEmpty(r, {c, '/'});
    hide GetCleanSeparators, Others, Collapse, Trim, Beside, Chained;
    if AllIn(s, {c, '/'}) {
      NothingChained(t, c);
      forall i | 0 <= i < |r| ensures r[i] in {'/'} {
        assert r[i] in {c, '/'};
        if r[i] == c { AloneIsBeside(r, c, i); }
      }
    }
  }

  /**
   * The two cleanings give `/`, as they do for the empty text, exactly if there is nothing but separators and
   * slashes.
   */
  lemma OnlySlashIff(alias: string, separator: string)
    requires |separator| <= 1
    ensures GetCleanSeparators(GetCleanSeparators(alias, separator), "/") == "/" <==> SeparatorsOnly(alias, separator)
  {
    SlashesToOne(GetCleanSeparators(alias, separator));
    if separator == "" {
      assert GetCleanSeparators(alias, separator) == alias;
    } else if separator == "/" {
      SlashesCleaned(alias);
      OthersEmpty(alias, {'/'});
      OthersEmpty(GetCleanSeparators(alias, separator), {'/'});
    } else {
      assert separator == [separator[0]];
      CleanedToSlashes(alias, separator[0]);
    }
  }

  // --- Cleaning token values ---

  /**
   * What is done to a token value: `prepare` stands for markup, punctuation, transliteration, ignored words and white
   * space, and `finish` for the letter case and the shortening.
   */
  function CleanedString(value: string, langcode: string, separator: string,
                         prepare: (string, string) -> string, finish: string -> string): string
    requires |separator| <= 1
  {
    if value == "" then ""
    else finish(GetCleanSeparators(GetCleanSeparators(prepare(value, langcode), separator), separator))
  }

  /** What is handed over in the end has been cleaned so far that no separator stands beside a slash. */
  lemma HandedOver(value: string, langcode: string, separator: string, prepare: (string, string) -> string,
                   finish: string -> string)
    requires |separator| <= 1
    ensures value != "" && |separator| == 1 && separator != "/" ==>
              exists text: string ::
                && CleanedString(value, langcode, separator, prepare, finish) == finish(text)
                && !Beside(text, separator[0]) && NoEdge(text, separator[0]) && NoDouble(text, separator[0])
                && Others(text, {separator[0], '/'}) == Others(prepare(value, langcode), {separator[0], '/'})
  {
    if value != "" && |separator| == 1 && separator != "/" {
      var c, prepared := separator[0], prepare(value, langcode);
      var once := GetCleanSeparators(prepared, separator);
      var text := GetCleanSeparators(once, separator);
      assert separator == [c] && CleanedString(value, langcode, separator, prepare, finish) == finish(text);
      hide *;
      CleanedTwice(prepared, c);
      SeparatorsCleaned(prepared, c);
      SeparatorsCleaned(once, c);
    }
  }

  class AliasCleaner {
    const separator: string
    const prepare: (string, string) -> string
    const finish: string -> string
    /** Results by language and value. */
    var strings: map<(string, string), string>

    /** Every result kept is the one that would be computed. */
    ghost predicate Valid()
      reads this
    {
      && |separator| <= 1
      && forall k | k in strings :: strings[k] == CleanedString(k.1, k.0, separator, prepare, finish)
    }

    constructor (separator: string, prepare: (string, string) -> string, finish: string -> string)
      requires |separator| <= 1
      ensures Valid() && this.separator == separator && this.prepare == prepare && this.finish == finish
    {
      this.separator, this.prepare, this.finish, strings := separator, prepare, finish, map[];
    }

    method CleanString(value: string, langcode: string) returns (output: string)
      requires Valid()
      modifies this
      ensures Valid() && output == CleanedString(value, langcode, separator, prepare, finish)
      ensures value == "" ==> output == ""
      ensures value != "" && |separator| == 1 && separator != "/" ==>
                exists text: string ::
                  && output == finish(text)
                  && !Beside(text, separator[0]) && NoEdge(text, separator[0]) && NoDouble(text, separator[0])
                  && Others(text, {separator[0], '/'}) == Others(prepare(value, langcode), {separator[0], '/'})
    {
      HandedOver(value, langcode, separator, prepare, finish);
      if value == "" {
        return "";
      }
      if (langcode, value) in strings {
        return strings[(langcode, value)];
      }
      output := prepare(value, langcode);
      output := GetCleanSeparators(output, separator);
      output := GetCleanSeparators(output, separator);
      output := finish(output);
      strings := strings[(langcode, value) := output];
    }
  }
}
