/**
 * Texts with replacement tokens such as `{{req1.body@$.data..id}}`: scanning for tokens, replacing one
 * token everywhere, and the relation between replacing tokens one after the other and all at once.
 */
module TokenText {
  import opened Wrappers

  predicate IsBrace(c: char) {
    c == '{' || c == '}'
  }

  predicate BraceFree(s: string) {
    forall c | c in s :: !IsBrace(c)
  }

  function Braces(s: string): nat {
    if s == "" then 0 else (if IsBrace(s[0]) then 1 else 0) + Braces(s[1..])
  }

  /** Length of the longest brace-free prefix. */
  function RunLength(s: string): (n: nat)
    ensures n <= |s| && BraceFree(s[..n])
    ensures n < |s| ==> IsBrace(s[n])
  {
    if s == "" || IsBrace(s[0]) then 0 else 1 + RunLength(s[1..])
  }

  /**
   * `b` has the form `subject@path`, where the subject holds a dot that is neither its first nor its last character.
   */
  predicate IsTokenBody(b: string) {
    exists p, q | 1 <= p < |b| && p + 2 <= q < |b| - 1 :: b[p] == '.' && b[q] == '@'
  }

  /** The length of the token that starts at the front of `s`, if one does. */
  function ScanToken(s: string): (n: Option<nat>)
    ensures n.Some? ==> 0 < n.value <= |s|
  {
    if |s| >= 2 && s[0] == '{' && s[1] == '{' then
      var n := RunLength(s[2..]);
      if n + 3 < |s| && s[n + 2] == '}' && s[n + 3] == '}' && IsTokenBody(s[2..n + 2]) then Some(n + 4) else None
    else None
  }

  /** What a token is, independently of the scan: a body without braces between double braces. */
  predicate IsToken(t: string) {
    && |t| >= 4 && t[0] == '{' && t[1] == '{' && t[|t| - 2] == '}' && t[|t| - 1] == '}'
    && (forall i | 2 <= i < |t| - 2 :: !IsBrace(t[i]))
    && IsTokenBody(t[2..|t| - 2])
  }

  /** The tokens in `s`, leftmost first; matches do not overlap. */
  function FindTokens(s: string): (tokens: seq<string>)
    ensures forall t | t in tokens :: IsToken(t)
  {
    if s == "" then []
    else match ScanToken(s)
      case Some(n) => TokenItself(s, n); [s[..n]] + FindTokens(s[n..])
      case None => FindTokens(s[1..])
  }

  /** Replaces the literal text `t` by `v`, from left to right. */
  function ReplaceAll(s: string, t: string, v: string): string
    requires t != ""
  {
    if s == "" then ""
    else if t <= s then v + ReplaceAll(s[|t|..], t, v)
    else [s[0]] + ReplaceAll(s[1..], t, v)
  }

  /** Replaces every token of `s` that has a value, all at once. */
  function Substitute(values: map<string, string>, s: string): string {
    if s == "" then ""
    else match ScanToken(s)
      case Some(n) => (if s[..n] in values then values[s[..n]] else s[..n]) + Substitute(values, s[n..])
      case None => [s[0]] + Substitute(values, s[1..])
  }

  /** The number of positions at which `t` occurs in `s`. */
  function Count(t: string, s: string): nat {
    if s == "" then 0 else (if t <= s then 1 else 0) + Count(t, s[1..])
  }

  // --- Shape of tokens ---

  lemma RunLengthUnique(s: string, n: nat)
    requires n < |s| && BraceFree(s[..n]) && IsBrace(s[n])
    ensures RunLength(s) == n
  {
    if n > 0 {
      assert s[0] == s[..n][0];
      assert s[1..][..n - 1] == s[..n][1..];
      RunLengthUnique(s[1..], n - 1);
    }
  }

  lemma TokenShape(t: string)
    requires IsToken(t)
    ensures |t| >= 8 && t[0] == '{' && t[1] == '{' && t[|t| - 2] == '}' && t[|t| - 1] == '}'
    ensures forall i | 2 <= i < |t| - 2 :: !IsBrace(t[i])
  {
    var body := t[2..|t| - 2];
    var p, q :| 1 <= p < |body| && p + 2 <= q < |body| - 1 && body[p] == '.' && body[q] == '@';
  }

  /** A token that stands at the front of a text is found by the scan. */
  lemma TokenIsScanned(t: string, s: string)
    requires IsToken(t) && t <= s
    ensures ScanToken(s) == Some(|t|) && s[..|t|] == t
  {
    TokenShape(t);
    var n := |t| - 4;
    forall i | 0 <= i < |s[2..][..n]| ensures !IsBrace(s[2..][..n][i]) {
      assert s[2..][..n][i] == t[i + 2];
    }
    assert s[2..][n] == t[n + 2];
    RunLengthUnique(s[2..], n);
    assert s[2..n + 2] == t[2..|t| - 2];
  }

  /** A scanned token, cut out of its text, is a token. */
  lemma TokenItself(s: string, n: nat)
    requires ScanToken(s) == Some(n)
    ensures IsToken(s[..n])
  {
    var t := s[..n];
    var m := RunLength(s[2..]);
    assert n == m + 4 && t[2..n - 2] == s[2..m + 2];
    forall i | 2 <= i < n - 2 ensures !IsBrace(t[i]) {
      assert t[i] == s[2..][..m][i - 2];
    }
  }

  /** A token occurs at the front of a text exactly when the scan finds that token there. */
  lemma TokenAtFront(t: string, s: string)
    requires IsToken(t)
    ensures t <= s <==> ScanToken(s) == Some(|t|) && s[..|t|] == t
  {
    if t <= s { TokenIsScanned(t, s); }
  }

  /** At most one token starts at a given place. */
  lemma TokenUnique(t: string, u: string, s: string)
    requires IsToken(t) && IsToken(u) && t <= s && u <= s
    ensures t == u
  {
    TokenAtFront(t, s);
    TokenAtFront(u, s);
  }

  /** No token starts strictly inside a token. */
  lemma NoTokenInside(t: string, u: string, s: string, k: nat)
    requires IsToken(t) && IsToken(u) && t <= s && 0 < k < |t|
    ensures !(u <= s[k..])
  {
    TokenShape(t);
    TokenShape(u);
    assert s[k..][0] == t[k];
    assert k == 1 ==> s[k..][1] == t[2];
  }

  // --- Replacing one token ---

  lemma {:induction false} BracesConcat(s: string, t: string)
    ensures Braces(s + t) == Braces(s) + Braces(t)
  {
    if s == "" {
      assert s + t == t;
    } else {
      assert (s + t)[1..] == s[1..] + t;
      BracesConcat(s[1..], t);
    }
  }

  lemma {:induction false} BraceFreeBraces(s: string)
    ensures Braces(s) == 0 <==> BraceFree(s)
  {
    if s != "" {
      BraceFreeBraces(s[1..]);
      assert s == [s[0]] + s[1..];
    }
  }

  lemma TokenBraces(t: string)
    requires IsToken(t)
    ensures Braces(t) == 4
  {
    TokenShape(t);
    var body := t[2..|t| - 2];
    assert t == "{{" + (body + "}}");
    BracesConcat("{{", body + "}}");
    BracesConcat(body, "}}");
    BraceFreeBraces(body);
    assert "{{"[1..] == "{" && "}}"[1..] == "}";
  }

  /** Brace-free text in front of a text adds no occurrence of a token. */
  lemma {:induction false} CountSkipsBraceFree(t: string, v: string, s: string)
    requires IsToken(t) && BraceFree(v)
    ensures Count(t, v + s) == Count(t, s)
  {
    TokenShape(t);
    if v == "" {
      assert v + s == s;
    } else {
      assert (v + s)[1..] == v[1..] + s && (v + s)[0] == v[0];
      assert v[0] in v && t[0] == '{' && !(t <= v + s);
      CountSkipsBraceFree(t, v[1..], s);
    }
  }

  /** Passing over a token at the front loses that occurrence and no other. */
  lemma CountSkipsToken(t: string, u: string, s: string)
    requires IsToken(t) && IsToken(u) && u <= s
    ensures Count(t, s) == (if t == u then 1 else 0) + Count(t, s[|u|..])
  {
    TokenShape(u);
    if t <= s { TokenUnique(t, u, s); }
    CountSkipsInside(t, u, s, 1);
  }

  lemma {:induction false} CountSkipsInside(t: string, u: string, s: string, k: nat)
    requires IsToken(t) && IsToken(u) && u <= s && 0 < k <= |u|
    ensures Count(t, s[k..]) == Count(t, s[|u|..])
    decreases |u| - k
  {
    if k < |u| {
      NoTokenInside(u, t, s, k);
      assert s[k..][1..] == s[k + 1..];
      CountSkipsInside(t, u, s, k + 1);
    }
  }

  /** Replacing a token by brace-free text removes four braces for each occurrence. */
  lemma {:induction false} ReplaceAllBraces(s: string, t: string, v: string)
    requires IsToken(t) && BraceFree(v)
    ensures Braces(ReplaceAll(s, t, v)) + 4 * Count(t, s) == Braces(s)
  {
    if s == "" {
    } else if t <= s {
      assert s == t + s[|t|..];
      BracesConcat(t, s[|t|..]);
      TokenBraces(t);
      BracesConcat(v, ReplaceAll(s[|t|..], t, v));
      BraceFreeBraces(v);
      CountSkipsToken(t, t, s);
      ReplaceAllBraces(s[|t|..], t, v);
    } else {
      BracesConcat([s[0]], ReplaceAll(s[1..], t, v));
      BracesConcat([s[0]], s[1..]);
      assert s == [s[0]] + s[1..];
      ReplaceAllBraces(s[1..], t, v);
    }
  }

  /** Replacing one token destroys no occurrence of another. */
  lemma {:induction false} ReplaceAllKeepsOthers(s: string, t: string, v: string, u: string)
    requires IsToken(t) && IsToken(u) && t != u && BraceFree(v)
    ensures Count(u, ReplaceAll(s, t, v)) >= Count(u, s)
  {
    if s == "" {
    } else if t <= s {
      CountSkipsToken(u, t, s);
      CountSkipsBraceFree(u, v, ReplaceAll(s[|t|..], t, v));
      ReplaceAllKeepsOthers(s[|t|..], t, v, u);
    } else {
      var rest := ReplaceAll(s[1..], t, v);
      assert ([s[0]] + rest)[1..] == rest;
      ReplaceAllKeepsOthers(s[1..], t, v, u);
      if u <= s {
        ReplaceAllCopiesToken(s, t, v, u);
        assert u <= ReplaceAll(s, t, v);
      }
      CountStep(u, s);
      CountStep(u, ReplaceAll(s, t, v));
    }
  }

  lemma CountStep(u: string, s: string)
    requires s != ""
    ensures Count(u, s) == (if u <= s then 1 else 0) + Count(u, s[1..])
  {
  }

  /** Where the pattern does not occur, replacing copies the text. */
  lemma {:induction false} ReplaceAllCopies(s: string, p: string, v: string, k: nat, n: nat)
    requires p != "" && k <= n <= |s| && forall i | k <= i < n :: !(p <= s[i..])
    ensures ReplaceAll(s[k..], p, v) == s[k..n] + ReplaceAll(s[n..], p, v)
    decreases n - k
  {
    hide *;
    if k < n {
      ReplaceAllSkips(s, p, v, k);
      ReplaceAllCopies(s, p, v, k + 1, n);
      assert s[k..n] == [s[k]] + s[k + 1..n];
    }
  }

  lemma ReplaceAllSkips(s: string, p: string, v: string, k: nat)
    requires p != "" && k < |s| && !(p <= s[k..])
    ensures ReplaceAll(s[k..], p, v) == [s[k]] + ReplaceAll(s[k + 1..], p, v)
  {
    assert s[k..][1..] == s[k + 1..];
  }

  /** While another token passes by, replacing copies it. */
  lemma ReplaceAllCopiesToken(s: string, t: string, v: string, u: string)
    requires IsToken(t) && IsToken(u) && t != u && u <= s
    ensures ReplaceAll(s, t, v) == u + ReplaceAll(s[|u|..], t, v)
  {
    forall k | 0 <= k < |u| ensures !(t <= s[k..]) {
      OtherTokenInside(t, u, s, k);
    }
    ReplaceAllCopies(s, t, v, 0, |u|);
    assert s[0..] == s && s[0..|u|] == u;
  }

  lemma OtherTokenInside(t: string, u: string, s: string, k: nat)
    requires IsToken(t) && IsToken(u) && t != u && u <= s && k < |u|
    ensures !(t <= s[k..])
  {
    if k == 0 {
      assert s[k..] == s;
      if t <= s { TokenUnique(t, u, s); }
    } else {
      NoTokenInside(u, t, s, k);
    }
  }

  // --- Replacing a token together with the quotes around it ---

  function Quoted(t: string): (q: string)
    ensures q != ""
  {
    "\"" + t + "\""
  }

  /** How many copies of `p` ReplaceAll replaces. */
  function Hits(s: string, p: string): nat
    requires p != ""
  {
    if s == "" then 0
    else if p <= s then 1 + Hits(s[|p|..], p)
    else Hits(s[1..], p)
  }

  lemma QuotedAtFront(s: string, t: string, u: string)
    requires IsToken(t) && IsToken(u) && Quoted(t) <= s
    ensures Count(u, s) == (if u == t then 1 else 0) + Count(u, s[|Quoted(t)|..])
    ensures Braces(s) == 4 + Braces(s[|Quoted(t)|..])
  {
    var rest := s[|Quoted(t)|..];
    var tail := t + ("\"" + rest);
    assert s == "\"" + tail;
    CountSkipsBraceFree(u, "\"", tail);
    assert tail[|t|..] == "\"" + rest;
    CountSkipsToken(u, t, tail);
    CountSkipsBraceFree(u, "\"", rest);
    BracesConcat("\"", tail);
    BracesConcat(t, "\"" + rest);
    BracesConcat("\"", rest);
    BraceFreeBraces("\"");
    TokenBraces(t);
  }

  lemma QuotedNotInside(s: string, t: string, u: string, k: nat)
    requires IsToken(t) && IsToken(u) && u <= s && k < |u|
    ensures !(Quoted(t) <= s[k..])
  {
    TokenShape(t);
    TokenShape(u);
    assert Quoted(t)[0] == '\"' && Quoted(t)[1] == '{' && s[k..][0] == u[k];
    if k + 1 < |u| {
      assert s[k..][1] == u[k + 1];
    }
  }

  /** Replacing a quoted token loses four braces for each copy it removes. */
  lemma {:induction false} QuotedBraces(s: string, t: string, v: string)
    requires IsToken(t) && BraceFree(v)
    ensures Braces(ReplaceAll(s, Quoted(t), v)) + 4 * Hits(s, Quoted(t)) == Braces(s)
    decreases |s|
  {
    var q := Quoted(t);
    if s == "" {
    } else if q <= s {
      QuotedAtFront(s, t, t);
      QuotedBraces(s[|q|..], t, v);
      BracesConcat(v, ReplaceAll(s[|q|..], q, v));
      BraceFreeBraces(v);
    } else {
      QuotedBraces(s[1..], t, v);
      BracesConcat([s[0]], ReplaceAll(s[1..], q, v));
      BracesConcat([s[0]], s[1..]);
      assert s == [s[0]] + s[1..];
    }
  }

  /** Replacing a quoted token removes no copy of another token. */
  lemma {:induction false} QuotedKeeps(s: string, t: string, v: string, u: string)
    requires IsToken(t) && IsToken(u) && BraceFree(v)
    ensures Count(u, ReplaceAll(s, Quoted(t), v)) + (if u == t then Hits(s, Quoted(t)) else 0) >= Count(u, s)
    decreases |s|
  {
    hide *;
    var q := Quoted(t);
    if s == "" {
      NothingReplaced(q, v, u);
    } else if q <= s {
      QuotedAtFront(s, t, u);
      QuotedKeeps(s[|q|..], t, v, u);
      ReplaceHit(s, q, v);
      CountSkipsBraceFree(u, v, ReplaceAll(s[|q|..], q, v));
    } else {
      QuotedKeeps(s[1..], t, v, u);
      ReplaceMiss(s, q, v);
      CountStep(u, s);
      CountStep(u, ReplaceAll(s, q, v));
      if u <= s {
        QuotedCopiesToken(s, t, v, u);
      }
    }
  }

  lemma NothingReplaced(p: string, v: string, u: string)
    requires p != ""
    ensures ReplaceAll("", p, v) == "" && Hits("", p) == 0 && Count(u, "") == 0
  {
  }

  lemma ReplaceHit(s: string, p: string, v: string)
    requires p != "" && p <= s
    ensures ReplaceAll(s, p, v) == v + ReplaceAll(s[|p|..], p, v) && Hits(s, p) == 1 + Hits(s[|p|..], p)
  {
  }

  lemma ReplaceMiss(s: string, p: string, v: string)
    requires p != "" && s != "" && !(p <= s)
    ensures ReplaceAll(s, p, v) == [s[0]] + ReplaceAll(s[1..], p, v) && Hits(s, p) == Hits(s[1..], p)
    ensures ReplaceAll(s, p, v) != "" && ReplaceAll(s, p, v)[1..] == ReplaceAll(s[1..], p, v)
  {
    var rest := ReplaceAll(s[1..], p, v);
    assert ([s[0]] + rest)[1..] == rest;
  }

  lemma QuotedCopiesToken(s: string, t: string, v: string, u: string)
    requires IsToken(t) && IsToken(u) && u <= s
    ensures u <= ReplaceAll(s, Quoted(t), v)
  {
    forall k | 0 <= k < |u| ensures !(Quoted(t) <= s[k..]) {
      QuotedNotInside(s, t, u, k);
    }
    ReplaceAllCopies(s, Quoted(t), v, 0, |u|);
    assert s[0..] == s && s[0..|u|] == u;
  }
}
