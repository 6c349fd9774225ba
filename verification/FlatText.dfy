/**
 * Texts in which no token is nested: no double braces enclose a token and otherwise brace-free text. Replacing tokens
 * of such a text by brace-free values completes no new token.
 */
module FlatText {
  import opened Wrappers
  import opened TokenText
  import opened Substitution

  /** The text without its tokens. */
  function Outside(s: string): string {
    if s == "" then ""
    else match ScanToken(s)
      case Some(n) => Outside(s[n..])
      case None => [s[0]] + Outside(s[1..])
  }

  /**
   * The text goes on as double braces do after their first `k` parts: the other opening brace, or the two closing
   * ones.
   */
  predicate GoesOn(k: nat, s: string)
    decreases |s|
  {
    && s != ""
    && if k == 1 then s[0] == '{' && GoesOn(2, s[1..])
       else if k == 2 then if IsBrace(s[0]) then s[0] == '}' && GoesOn(3, s[1..]) else GoesOn(2, s[1..])
       else s[0] == '}'
  }

  /** How far the double braces reach. */
  function Reach(k: nat, s: string): (n: nat)
    requires GoesOn(k, s)
    ensures 0 < n <= |s|
    decreases |s|
  {
    if k == 1 then 1 + Reach(2, s[1..])
    else if k == 2 then 1 + if IsBrace(s[0]) then Reach(3, s[1..]) else Reach(2, s[1..])
    else 1
  }

  /** The same with tokens left out. The double braces have to hold one: `met` says whether they have met it before. */
  predicate Wraps(k: nat, met: bool, s: string)
    decreases |s|
  {
    && s != ""
    && match ScanToken(s)
       case Some(n) => Wraps(k, true, s[n..])
       case None =>
         if k == 1 then s[0] == '{' && Wraps(2, met, s[1..])
         else if k == 2 then if IsBrace(s[0]) then s[0] == '}' && Wraps(3, met, s[1..]) else Wraps(2, met, s[1..])
         else s[0] == '}' && met
  }

  /**
   * No token is nested: nowhere do double braces enclose a token and otherwise brace-free text. Braces of other kinds,
   * those of a JSON object or double braces that are no token, may stand anywhere.
   */
  predicate Flat(s: string)
    decreases |s|
  {
    s == "" ||
    match ScanToken(s)
    case Some(n) => Flat(s[n..])
    case None => !(s[0] == '{' && Wraps(1, false, s[1..])) && Flat(s[1..])
  }

  // --- Double braces ---

  lemma {:induction false} RunReaches(s: string, n: nat)
    requires n + 1 < |s| && BraceFree(s[..n]) && s[n] == '}' && s[n + 1] == '}'
    ensures GoesOn(2, s) && Reach(2, s) == n + 2
  {
    if n == 0 {
      assert GoesOn(3, s[1..]);
    } else {
      assert s[0] in s[..n];
      assert s[1..][..n - 1] == s[..n][1..];
      RunReaches(s[1..], n - 1);
    }
  }

  /** Every token is a pair of double braces. */
  lemma ScannedReaches(s: string, n: nat)
    requires ScanToken(s) == Some(n)
    ensures s[0] == '{' && GoesOn(1, s[1..]) && 1 + Reach(1, s[1..]) == n
  {
    var rest := s[2..];
    RunReaches(rest, RunLength(rest));
    assert s[1..][1..] == rest;
  }

  /** Brace-free text in front can only matter between the opening and the closing braces. */
  lemma {:induction false} GoesOnPast(k: nat, v: string, s: string)
    requires BraceFree(v) && 1 <= k <= 3
    ensures GoesOn(k, v + s) <==> (k == 2 || v == "") && GoesOn(k, s)
    decreases |v|
  {
    if v == "" {
      assert v + s == s;
    } else {
      assert (v + s)[0] == v[0] && v[0] in v && (v + s)[1..] == v[1..] + s;
      GoesOnPast(2, v[1..], s);
    }
  }

  lemma {:induction false} WrapsPast(k: nat, met: bool, v: string, s: string)
    requires BraceFree(v) && 1 <= k <= 3
    ensures Wraps(k, met, v + s) <==> (k == 2 || v == "") && Wraps(k, met, s)
    decreases |v|
  {
    if v == "" {
      assert v + s == s;
    } else {
      PlainFront(v, s);
      assert v[0] in v && (v + s)[1..] == v[1..] + s;
      WrapsPast(2, met, v[1..], s);
    }
  }

  lemma {:induction false} WrapsMore(k: nat, s: string)
    requires Wraps(k, false, s)
    ensures Wraps(k, true, s)
    decreases |s|
  {
    match ScanToken(s)
    case Some(_) =>
    case None => if k == 1 || k == 2 { WrapsMore(if k == 1 || !IsBrace(s[0]) then 2 else 3, s[1..]); }
  }

  lemma {:induction false} FlatPast(v: string, s: string)
    requires BraceFree(v)
    ensures (Flat(v + s) <==> Flat(s)) && FindTokens(v + s) == FindTokens(s)
  {
    if v == "" {
      assert v + s == s;
    } else {
      PlainFront(v, s);
      assert v[0] in v && (v + s)[1..] == v[1..] + s;
      FlatPast(v[1..], s);
    }
  }

  // --- Rewriting ---

  /**
   * `y` is `s` with brace-free text in place of some tokens. A token may lose the quotes around it if the text put
   * there is not empty. None of the tokens in `gone` is kept.
   */
  ghost predicate Rewrites(s: string, y: string, gone: set<string>)
    decreases |s|, 1
  {
    if s == "" then y == ""
    else match ScanToken(s)
      case Some(n) => Keeps(s, y, n, gone) || exists k: nat :: Puts(s, y, n, k, gone)
      case None => Copies(s, y, gone) || exists n: nat, k: nat :: PutsUnquoted(s, y, n, k, gone)
  }

  ghost predicate Keeps(s: string, y: string, n: nat, gone: set<string>)
    decreases |s|, 0
  {
    0 < n <= |s| && s[..n] !in gone && s[..n] <= y && Rewrites(s[n..], y[n..], gone)
  }

  ghost predicate Puts(s: string, y: string, n: nat, k: nat, gone: set<string>)
    decreases |s|, 0
  {
    0 < n <= |s| && k <= |y| && BraceFree(y[..k]) && Rewrites(s[n..], y[k..], gone)
  }

  ghost predicate Copies(s: string, y: string, gone: set<string>)
    decreases |s|, 0
  {
    s != "" && y != "" && y[0] == s[0] && Rewrites(s[1..], y[1..], gone)
  }

  ghost predicate PutsUnquoted(s: string, y: string, n: nat, k: nat, gone: set<string>)
    decreases |s|, 0
  {
    && n + 1 < |s| && s[0] == '"' && ScanToken(s[1..]) == Some(n) && s[n + 1] == '"'
    && 0 < k <= |y| && BraceFree(y[..k]) && Rewrites(s[n + 2..], y[k..], gone)
  }

  lemma SuffixOfSuffix(s: string, i: nat, j: nat)
    requires i + j <= |s|
    ensures s[i..][j..] == s[i + j..]
  {
  }

  lemma WrapsToken(k: nat, met: bool, s: string, n: nat)
    requires ScanToken(s) == Some(n) && 1 <= k <= 3
    ensures n <= |s| && (Wraps(k, met, s) <==> Wraps(k, true, s[n..]))
    ensures (Flat(s) <==> Flat(s[n..])) && FindTokens(s) == [s[..n]] + FindTokens(s[n..])
  {
    hide ScanToken;
  }

  lemma QuotePassed(k: nat, met: bool, s: string)
    requires s != "" && s[0] == '"' && 1 <= k <= 3
    ensures Wraps(k, met, s) <==> k == 2 && Wraps(2, met, s[1..])
    ensures (Flat(s) <==> Flat(s[1..])) && FindTokens(s) == FindTokens(s[1..])
  {
  }

  /** A token with quotes around it counts between the opening and the closing braces only. */
  lemma QuotedPassed(k: nat, met: bool, s: string, n: nat)
    requires n + 1 < |s| && s[0] == '"' && ScanToken(s[1..]) == Some(n) && s[n + 1] == '"' && 1 <= k <= 3
    ensures k == 2 && Wraps(2, true, s[n + 2..]) ==> Wraps(k, met, s)
    ensures (Flat(s) <==> Flat(s[n + 2..])) && FindTokens(s) == [s[1..][..n]] + FindTokens(s[n + 2..])
  {
    QuotePassed(k, met, s);
    QuotePassed(2, true, s[n + 1..]);
    hide *;
    SuffixOfSuffix(s, 1, n);
    SuffixOfSuffix(s, n + 1, 1);
    WrapsToken(2, met, s[1..], n);
  }

  function NextPart(k: nat, c: char): nat {
    if k == 1 || !IsBrace(c) then 2 else 3
  }

  lemma GoesOnStep(k: nat, y: string)
    requires 1 <= k <= 3 && GoesOn(k, y)
    ensures y != "" && (k == 3 ==> y[0] == '}' && Reach(k, y) == 1)
    ensures k != 3 ==> GoesOn(NextPart(k, y[0]), y[1..]) && Reach(k, y) == 1 + Reach(NextPart(k, y[0]), y[1..])
  {
  }

  lemma WrapsStep(k: nat, met: bool, y: string, s: string)
    requires 1 <= k <= 3 && GoesOn(k, y) && s != "" && s[0] == y[0] && ScanToken(s).None?
    ensures if k == 3 then Wraps(k, met, s) <==> met else Wraps(k, met, s) <==> Wraps(NextPart(k, y[0]), met, s[1..])
  {
  }

  lemma GoesOnBehind(k: nat, y: string, j: nat)
    requires 1 <= k <= 3 && GoesOn(k, y) && j <= |y| && BraceFree(y[..j])
    ensures GoesOn(k, y[j..]) && (j > 0 ==> k == 2)
  {
    assert y == y[..j] + y[j..];
    GoesOnPast(k, y[..j], y[j..]);
  }

  /** The opening braces of a token do not continue double braces. */
  lemma KeptTokenEndsFrame(s: string, n: nat, y: string, k: nat)
    requires ScanToken(s) == Some(n) && s[..n] <= y && 1 <= k <= 3
    ensures !GoesOn(k, y)
  {
    assert n >= 2 && y[0] == s[..n][0] && y[1] == s[..n][1];
    assert y[1..][0] == y[1];
  }

  /** What double braces in a rewritten text were before: double braces around a token, or the same text. */
  ghost predicate WasThere(k: nat, met: bool, s: string, y: string)
    requires GoesOn(k, y)
  {
    Wraps(k, met, s) || (!met && Reach(k, y) <= |s| && y[..Reach(k, y)] == s[..Reach(k, y)])
  }

  lemma {:induction false} RewritingGoesOn(s: string, y: string, gone: set<string>, k: nat, met: bool)
    requires Rewrites(s, y, gone) && 1 <= k <= 3 && GoesOn(k, y)
    ensures WasThere(k, met, s, y)
    decreases |s|
  {
    assert y != "";
    hide GoesOn, BraceFree, WasThere, Wraps, Reach;
    match ScanToken(s)
    case Some(n) =>
      if Keeps(s, y, n, gone) {
        KeptTokenEndsFrame(s, n, y, k);
      } else {
        var j: nat :| Puts(s, y, n, j, gone);
        GoesOnBehind(k, y, j);
        RewritingGoesOn(s[n..], y[j..], gone, k, true);
        WasWrapped(k, s[n..], y[j..]);
        WrapsToken(k, met, s, n);
        IsWrapped(k, met, s, y);
      }
    case None =>
      if Copies(s, y, gone) {
        GoesOnStep(k, y);
        if k != 3 {
          RewritingGoesOn(s[1..], y[1..], gone, NextPart(k, y[0]), met);
        }
        CopiedWasThere(k, met, s, y);
      } else {
        var n: nat, j: nat :| PutsUnquoted(s, y, n, j, gone);
        GoesOnBehind(k, y, j);
        RewritingGoesOn(s[n + 2..], y[j..], gone, k, true);
        WasWrapped(k, s[n + 2..], y[j..]);
        QuotedPassed(k, met, s, n);
        IsWrapped(k, met, s, y);
      }
  }

  lemma WasWrapped(k: nat, s: string, y: string)
    requires GoesOn(k, y) && WasThere(k, true, s, y)
    ensures Wraps(k, true, s)
  {
  }

  lemma IsWrapped(k: nat, met: bool, s: string, y: string)
    requires GoesOn(k, y) && Wraps(k, met, s)
    ensures WasThere(k, met, s, y)
  {
  }

  lemma CopiedWasThere(k: nat, met: bool, s: string, y: string)
    requires 1 <= k <= 3 && GoesOn(k, y) && s != "" && y != "" && s[0] == y[0] && ScanToken(s).None?
    requires k != 3 ==> GoesOn(NextPart(k, y[0]), y[1..]) && WasThere(NextPart(k, y[0]), met, s[1..], y[1..])
    ensures WasThere(k, met, s, y)
  {
    GoesOnStep(k, y);
    WrapsStep(k, met, y, s);
    hide GoesOn, Wraps, ScanToken;
    if !Wraps(k, met, s) && k != 3 {
      var n := Reach(NextPart(k, y[0]), y[1..]);
      assert y[..n + 1] == [y[0]] + y[1..][..n] && s[..n + 1] == [s[0]] + s[1..][..n];
    }
  }

  /** What rewriting keeps: no token gets nested, and the tokens are among those there were. */
  ghost predicate Remains(s: string, y: string, gone: set<string>) {
    && Flat(y)
    && (forall u | u in FindTokens(y) :: u in FindTokens(s) && u !in gone)
    && forall k, met | 1 <= k <= 3 :: Wraps(k, met, y) ==> Wraps(k, met, s)
  }

  lemma {:induction false} RewritingRemains(s: string, y: string, gone: set<string>)
    requires Rewrites(s, y, gone) && Flat(s)
    ensures Remains(s, y, gone)
    decreases |s|
  {
    if s != "" {
      hide Remains, Wraps;
      match ScanToken(s)
      case Some(n) =>
        if Keeps(s, y, n, gone) {
          RewritingRemains(s[n..], y[n..], gone);
          KeptRemains(s, y, n, gone);
        } else {
          var j: nat :| Puts(s, y, n, j, gone);
          RewritingRemains(s[n..], y[j..], gone);
          PutRemains(s, n, y, j, gone);
        }
      case None =>
        if Copies(s, y, gone) {
          RewritingRemains(s[1..], y[1..], gone);
          CopyRemains(s, y, gone);
        } else {
          var n: nat, j: nat :| PutsUnquoted(s, y, n, j, gone);
          QuotedPassed(2, false, s, n);
          RewritingRemains(s[n + 2..], y[j..], gone);
          UnquotedRemains(s, n, y, j, gone);
        }
    }
  }

  lemma KeptRemains(s: string, y: string, n: nat, gone: set<string>)
    requires ScanToken(s) == Some(n) && n <= |y| && s[..n] <= y && s[..n] !in gone && Remains(s[n..], y[n..], gone)
    ensures Remains(s, y, gone)
  {
    TokenItself(s, n);
    TokenIsScanned(s[..n], y);
    hide ScanToken, FindTokens, Flat, Wraps;
    assert y[..n] == s[..n];
    WrapsToken(1, false, s, n);
    WrapsToken(1, false, y, n);
    forall k, met | 1 <= k <= 3 ensures Wraps(k, met, y) ==> Wraps(k, met, s) {
      WrapsToken(k, met, s, n);
      WrapsToken(k, met, y, n);
    }
  }

  lemma PutRemains(s: string, n: nat, y: string, j: nat, gone: set<string>)
    requires ScanToken(s) == Some(n) && j <= |y| && BraceFree(y[..j]) && Remains(s[n..], y[j..], gone)
    ensures Remains(s, y, gone)
  {
    hide ScanToken, FindTokens, Flat, Wraps;
    var z := y[j..];
    assert y == y[..j] + z;
    FlatPast(y[..j], z);
    WrapsToken(1, false, s, n);
    forall k, met | 1 <= k <= 3 ensures Wraps(k, met, y) ==> Wraps(k, met, s) {
      WrapsPast(k, met, y[..j], z);
      WrapsToken(k, met, s, n);
      if Wraps(k, met, y) && !met { WrapsMore(k, z); }
    }
  }

  lemma UnquotedRemains(s: string, n: nat, y: string, j: nat, gone: set<string>)
    requires n + 1 < |s| && s[0] == '"' && ScanToken(s[1..]) == Some(n) && s[n + 1] == '"'
    requires 0 < j <= |y| && BraceFree(y[..j]) && Remains(s[n + 2..], y[j..], gone)
    ensures Remains(s, y, gone)
  {
    hide ScanToken, FindTokens, Flat, Wraps;
    var z := y[j..];
    assert y == y[..j] + z;
    FlatPast(y[..j], z);
    QuotedPassed(1, false, s, n);
    forall k, met | 1 <= k <= 3 ensures Wraps(k, met, y) ==> Wraps(k, met, s) {
      WrapsPast(k, met, y[..j], z);
      QuotedPassed(k, met, s, n);
      if Wraps(k, met, y) && !met { WrapsMore(k, z); }
    }
  }

  /** A copied character starts no token that was not there. */
  lemma CopyCompletesNothing(s: string, y: string, gone: set<string>)
    requires ScanToken(s).None? && Copies(s, y, gone) && Flat(s)
    ensures ScanToken(y).None?
  {
    if ScanToken(y).Some? {
      var n := ScanToken(y).value;
      ScannedReaches(y, n);
      hide ScanToken, Rewrites, Wraps, GoesOn, Reach;
      RewritingGoesOn(s[1..], y[1..], gone, 1, false);
      SameFront(s, y, n);
      TokenItself(y, n);
      TokenIsScanned(y[..n], s);
    }
  }

  lemma SameFront(s: string, y: string, n: nat)
    requires s != "" && y != "" && s[0] == y[0] && 0 < n <= |y| && n <= |s| && y[1..][..n - 1] == s[1..][..n - 1]
    ensures y[..n] <= s
  {
    assert y[..n] == [y[0]] + y[1..][..n - 1] && s[..n] == [s[0]] + s[1..][..n - 1];
  }

  /** And it cannot nest a token that was not nested before. */
  lemma CopyRemains(s: string, y: string, gone: set<string>)
    requires ScanToken(s).None? && Copies(s, y, gone) && Flat(s) && Remains(s[1..], y[1..], gone)
    ensures Remains(s, y, gone)
  {
    CopyCompletesNothing(s, y, gone);
    assert Wraps(1, false, y[1..]) ==> Wraps(1, false, s[1..]);
    assert FindTokens(s) == FindTokens(s[1..]) && FindTokens(y) == FindTokens(y[1..]);
    assert Flat(y);
    hide ScanToken, Rewrites, FindTokens, Flat;
    forall k, met | 1 <= k <= 3 ensures Wraps(k, met, y) ==> Wraps(k, met, s) {
      CopyWraps(k, met, s, y);
    }
  }

  lemma CopyWraps(k: nat, met: bool, s: string, y: string)
    requires ScanToken(s).None? && ScanToken(y).None? && s != "" && y != "" && s[0] == y[0] && 1 <= k <= 3
    requires forall k, met | 1 <= k <= 3 :: Wraps(k, met, y[1..]) ==> Wraps(k, met, s[1..])
    ensures Wraps(k, met, y) ==> Wraps(k, met, s)
  {
    assert Wraps(2, met, y[1..]) ==> Wraps(2, met, s[1..]);
    assert Wraps(3, met, y[1..]) ==> Wraps(3, met, s[1..]);
  }

  // --- The replacements are rewritings ---

  lemma {:induction false} ReplaceAllRewrites(s: string, t: string, v: string)
    requires IsToken(t) && BraceFree(v)
    ensures Rewrites(s, ReplaceAll(s, t, v), {t})
    decreases |s|
  {
    var y := ReplaceAll(s, t, v);
    if s == "" {
    } else if t <= s {
      TokenIsScanned(t, s);
      ReplaceAllRewrites(s[|t|..], t, v);
      assert y[..|v|] == v && y[|v|..] == ReplaceAll(s[|t|..], t, v);
      assert Puts(s, y, |t|, |v|, {t});
    } else {
      match ScanToken(s)
      case Some(n) =>
        TokenItself(s, n);
        ReplaceAllCopiesToken(s, t, v, s[..n]);
        ReplaceAllRewrites(s[n..], t, v);
        assert y[n..] == ReplaceAll(s[n..], t, v);
        assert Keeps(s, y, n, {t});
      case None =>
        ReplaceAllRewrites(s[1..], t, v);
        assert y[1..] == ReplaceAll(s[1..], t, v);
        assert Copies(s, y, {t});
    }
  }

  lemma {:induction false} UnquotingRewrites(s: string, t: string, v: string)
    requires IsToken(t) && BraceFree(v) && v != ""
    ensures Rewrites(s, ReplaceAll(s, Quoted(t), v), {})
    decreases |s|
  {
    var y, q := ReplaceAll(s, Quoted(t), v), Quoted(t);
    if s == "" {
    } else if q <= s {
      QuotedScanned(s, t);
      UnquotingRewrites(s[|q|..], t, v);
      assert y[..|v|] == v && y[|v|..] == ReplaceAll(s[|q|..], q, v);
      assert PutsUnquoted(s, y, |t|, |v|, {});
    } else {
      match ScanToken(s)
      case Some(n) =>
        TokenItself(s, n);
        QuotedCopied(s, t, v, s[..n]);
        UnquotingRewrites(s[n..], t, v);
        assert y[n..] == ReplaceAll(s[n..], q, v);
        assert Keeps(s, y, n, {});
      case None =>
        UnquotingRewrites(s[1..], t, v);
        assert y[1..] == ReplaceAll(s[1..], q, v);
        assert Copies(s, y, {});
    }
  }

  lemma QuotedScanned(s: string, t: string)
    requires IsToken(t) && Quoted(t) <= s
    ensures |Quoted(t)| == |t| + 2 && |t| + 1 < |s| && s[0] == '"' && s[|t| + 1] == '"'
    ensures ScanToken(s[1..]) == Some(|t|) && ScanToken(s).None?
  {
    var q := Quoted(t);
    assert q[0] == '"' && q[|t| + 1] == '"' && q[1..][..|t|] == t;
    assert t == s[1..][..|t|];
    TokenIsScanned(t, s[1..]);
  }

  lemma QuotedCopied(s: string, t: string, v: string, u: string)
    requires IsToken(t) && IsToken(u) && u <= s
    ensures ReplaceAll(s, Quoted(t), v) == u + ReplaceAll(s[|u|..], Quoted(t), v)
  {
    forall k | 0 <= k < |u| ensures !(Quoted(t) <= s[k..]) {
      QuotedNotInside(s, t, u, k);
    }
    ReplaceAllCopies(s, Quoted(t), v, 0, |u|);
    assert s[0..] == s && s[0..|u|] == u;
  }

  lemma {:induction false} SubstituteRewrites(m: map<string, string>, s: string)
    requires PlainValues(m)
    ensures Rewrites(s, Substitute(m, s), m.Keys)
    decreases |s|
  {
    var y := Substitute(m, s);
    if s != "" {
      match ScanToken(s)
      case Some(n) =>
        SubstituteRewrites(m, s[n..]);
        if s[..n] in m {
          var v := m[s[..n]];
          assert y[..|v|] == v && y[|v|..] == Substitute(m, s[n..]);
          assert Puts(s, y, n, |v|, m.Keys);
        } else {
          assert y[n..] == Substitute(m, s[n..]);
          assert Keeps(s, y, n, m.Keys);
        }
      case None =>
        SubstituteRewrites(m, s[1..]);
        assert y[1..] == Substitute(m, s[1..]);
        assert Copies(s, y, m.Keys);
    }
  }

  // --- What flatness means for replacing ---

  lemma {:induction false} WrapsOpens(met: bool, s: string)
    requires Wraps(1, met, s)
    ensures Outside(s) != "" && Outside(s)[0] == '{'
    decreases |s|
  {
    match ScanToken(s)
    case Some(n) => WrapsOpens(true, s[n..]);
    case None =>
  }

  /** Where outside the tokens no two opening braces stand side by side, as in serialized JSON, no token is nested. */
  lemma {:induction false} NoDoubleBraces(s: string)
    requires forall i | 0 <= i < |Outside(s)| :: !("{{" <= Outside(s)[i..])
    ensures Flat(s)
    decreases |s|
  {
    if s != "" {
      match ScanToken(s)
      case Some(n) =>
        assert Outside(s) == Outside(s[n..]);
        NoDoubleBraces(s[n..]);
      case None =>
        var rest := Outside(s[1..]);
        assert Outside(s) == [s[0]] + rest && Outside(s)[0..] == Outside(s);
        forall i | 0 <= i < |rest| ensures !("{{" <= rest[i..]) {
          assert Outside(s)[i + 1..] == rest[i..];
        }
        NoDoubleBraces(s[1..]);
        if Wraps(1, false, s[1..]) { WrapsOpens(false, s[1..]); }
    }
  }

  /** Text without tokens is flat, whatever braces it holds. */
  lemma {:induction false} TokenFreeIsFlat(s: string)
    requires FindTokens(s) == []
    ensures Flat(s) && forall k :: !Wraps(k, false, s)
    decreases |s|
  {
    if s != "" { TokenFreeIsFlat(s[1..]); }
  }

  /** Putting brace-free values in place of all tokens of a flat text leaves no token. */
  lemma FlatSubstitution(values: map<string, string>, s: string)
    requires PlainValues(values) && Flat(s) && forall t | t in FindTokens(s) :: t in values
    ensures FindTokens(Substitute(values, s)) == []
  {
    var left := FindTokens(Substitute(values, s));
    assert left != [] ==> left[0] in left;
    SubstituteRewrites(values, s);
    RewritingRemains(s, Substitute(values, s), values.Keys);
  }

  /** In a flat text the order in which its tokens are replaced does not matter. */
  lemma FlatTextInAnyOrder(order: seq<string>, values: map<string, string>, s: string)
    requires PlainValues(values) && ListsKeys(order, values) && Flat(s) && forall t | t in FindTokens(s) :: t in values
    ensures InOrder(order, values, s) == Substitute(values, s)
  {
    FlatSubstitution(values, s);
    OrderIrrelevantOnceTokenFree(order, values, s);
  }
}
