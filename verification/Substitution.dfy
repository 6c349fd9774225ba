/**
 * Replacing tokens one after the other compared with replacing them all at once. The two differ when
 * replacing a token nested in other double braces completes a new copy of a token still to be replaced.
 */
module Substitution {
  import opened Wrappers
  import opened TokenText

  /** Values for tokens: strings without braces. */
  ghost predicate PlainValues(values: map<string, string>) {
    forall t | t in values :: IsToken(t) && BraceFree(values[t])
  }

  ghost predicate SubMap(m: map<string, string>, n: map<string, string>) {
    forall t | t in m :: t in n && m[t] == n[t]
  }

  /** The text after replacing the tokens of `order`, first to last. */
  function InOrder(order: seq<string>, values: map<string, string>, s: string): string
    requires forall t | t in order :: t in values && IsToken(t)
  {
    if order == [] then s
    else
      var n := |order| - 1;
      assert order[n] in order;
      assert IsToken(order[n]) && |order[n]| > 0;
      ReplaceAll(InOrder(order[..n], values, s), order[n], values[order[n]])
  }

  /** The part of `values` that belongs to the tokens of `order`. */
  function Taken(order: seq<string>, values: map<string, string>): (m: map<string, string>)
    requires forall t | t in order :: t in values
    ensures SubMap(m, values)
    ensures forall t :: t in m <==> t in order
  {
    if order == [] then map[]
    else
      var n := |order| - 1;
      assert order[n] in order;
      Taken(order[..n], values)[order[n] := values[order[n]]]
  }

  ghost predicate NoRepeats(order: seq<string>) {
    forall i, j | 0 <= i < j < |order| :: order[i] != order[j]
  }

  /** No step of `order` meets a copy of its token that the steps before it have created. */
  ghost predicate NothingCaptured(order: seq<string>, values: map<string, string>, s: string)
    requires forall t | t in order :: t in values
  {
    forall j | 0 <= j < |order| :: StepIsClean(order, values, s, j)
  }

  ghost predicate StepIsClean(order: seq<string>, values: map<string, string>, s: string, j: nat)
    requires (forall t | t in order :: t in values) && j < |order|
  {
    Count(order[j], Substitute(Taken(order[..j], values), s)) == Count(order[j], s)
  }

  lemma TakenExactly(order: seq<string>, values: map<string, string>, part: map<string, string>)
    requires SubMap(part, values) && forall t :: t in order <==> t in part
    ensures (forall t | t in order :: t in values) && Taken(order, values) == part
  {
  }

  // --- Substitution step by step ---

  lemma {:induction false} SubstituteNothing(s: string)
    ensures Substitute(map[], s) == s
  {
    var m: map<string, string> := map[];
    SubstituteEmpty(m);
    hide *;
    if s != "" {
      match ScanToken(s)
      case Some(n) =>
        SubstituteNothing(s[n..]);
        SubstituteToken(m, s, n);
      case None =>
        SubstituteNothing(s[1..]);
        SubstituteChar(m, s);
    }
  }

  lemma SubstituteEmpty(m: map<string, string>)
    ensures Substitute(m, "") == ""
  {
  }

  lemma SubstituteToken(m: map<string, string>, s: string, n: nat)
    requires ScanToken(s) == Some(n)
    ensures n <= |s| && Substitute(m, s) == (if s[..n] in m then m[s[..n]] else s[..n]) + Substitute(m, s[n..])
  {
    hide ScanToken;
  }

  lemma SubstituteChar(m: map<string, string>, s: string)
    requires s != "" && ScanToken(s).None?
    ensures Substitute(m, s) == [s[0]] + Substitute(m, s[1..]) && Substitute(m, s)[1..] == Substitute(m, s[1..])
    ensures Substitute(m, s) != ""
  {
    hide ScanToken;
  }

  /** The inner end of a token survives more substitution: no token can start inside it. */
  lemma {:induction false} TokenEndPersists(m: map<string, string>, n: map<string, string>, s: string, u: string,
                                            j: nat, w: string)
    requires PlainValues(n) && SubMap(m, n) && IsToken(u) && 1 <= j <= |u| && w == u[j..]
    requires w <= Substitute(m, s)
    ensures w <= Substitute(n, s)
    decreases |s|, 1
  {
    SubstituteEmpty(m);
    hide *;
    if w != "" && s != "" {
      match ScanToken(s)
      case Some(k) => EndPastToken(m, n, s, u, j, w, k);
      case None => EndPastChar(m, n, s, u, j, w);
    }
  }

  lemma {:induction false} EndPastToken(m: map<string, string>, n: map<string, string>, s: string, u: string, j: nat,
                                        w: string, k: nat)
    requires PlainValues(n) && SubMap(m, n) && IsToken(u) && 1 <= j < |u| && w == u[j..]
    requires ScanToken(s) == Some(k) && w <= Substitute(m, s)
    ensures w <= Substitute(n, s)
    decreases |s|, 0
  {
    hide *;
    ValuesOfSubMap(m, n);
    SubstituteToken(m, s, k);
    SubstituteToken(n, s, k);
    if s[..k] in m {
      var v := m[s[..k]];
      PassValue(w, v, Substitute(m, s[k..]), Substitute(n, s[k..]));
      if |v| <= |w| {
        TailOfTail(u, j, |v|);
        TokenEndPersists(m, n, s[k..], u, j + |v|, w[|v|..]);
      }
    } else {
      TokenItself(s, k);
      TokenEndMeetsNoToken(u, j, s[..k], Substitute(m, s[k..]));
    }
  }

  lemma {:induction false} EndPastChar(m: map<string, string>, n: map<string, string>, s: string, u: string, j: nat,
                                       w: string)
    requires PlainValues(n) && SubMap(m, n) && IsToken(u) && 1 <= j < |u| && w == u[j..]
    requires s != "" && ScanToken(s).None? && w <= Substitute(m, s)
    ensures w <= Substitute(n, s)
    decreases |s|, 0
  {
    hide *;
    SubstituteChar(m, s);
    SubstituteChar(n, s);
    PassValue(w, [s[0]], Substitute(m, s[1..]), Substitute(n, s[1..]));
    TailOfTail(u, j, 1);
    TokenEndPersists(m, n, s[1..], u, j + 1, w[1..]);
  }

  lemma TailOfTail(u: string, j: nat, n: nat)
    requires j + n <= |u|
    ensures u[j..][n..] == u[j + n..]
  {
  }

  /** What stands behind a value may change as long as the rest of the text in question still stands there. */
  lemma PassValue(w: string, v: string, rest: string, other: string)
    requires w <= v + rest
    ensures |v| <= |w| ==> w[|v|..] <= rest && (w[|v|..] <= other ==> w <= v + other)
    ensures |v| >= |w| ==> w <= v + other
  {
    PrefixOfConcat(w, v, rest);
    PrefixOfConcat(w, v, other);
  }

  lemma ValuesOfSubMap(m: map<string, string>, n: map<string, string>)
    requires SubMap(m, n)
    ensures forall t | t in m :: t in n && m[t] == n[t]
  {
  }

  lemma PrefixOfConcat(w: string, v: string, rest: string)
    ensures |v| <= |w| ==> (w <= v + rest <==> v <= w && w[|v|..] <= rest)
    ensures |w| <= |v| ==> (w <= v + rest <==> w <= v)
  {
    if |v| <= |w| && v <= w && w[|v|..] <= rest {
      assert w == v + w[|v|..];
    }
    if |v| <= |w| && w <= v + rest {
      assert w[|v|..] == (v + rest)[..|w|][|v|..];
      assert forall i | 0 <= i < |v| :: w[i] == (v + rest)[i];
      assert forall i | 0 <= i < |w| - |v| :: w[|v|..][i] == rest[i];
    }
  }

  lemma TokenEndMeetsNoToken(u: string, j: nat, t: string, rest: string)
    requires IsToken(u) && IsToken(t) && 1 <= j < |u|
    ensures !(u[j..] <= t + rest)
  {
    TokenShape(u);
    TokenShape(t);
    assert (t + rest)[0] == '{' && (t + rest)[1] == '{';
    if j == 1 {
      assert u[j..][1] == u[2];
    }
  }

  /** The more tokens are substituted, the more copies of another token there are. */
  lemma {:induction false} SubstituteCreatesCopies(m: map<string, string>, n: map<string, string>, s: string, u: string)
    requires PlainValues(n) && SubMap(m, n) && IsToken(u) && u !in n
    ensures Count(u, Substitute(m, s)) <= Count(u, Substitute(n, s))
    decreases |s|
  {
    if s != "" {
      match ScanToken(s)
      case Some(k) =>
        TokenItself(s, k);
        SubstituteCreatesCopies(m, n, s[k..], u);
        CountSubstituteToken(m, s, k, u);
        CountSubstituteToken(n, s, k, u);
      case None =>
        SubstituteCreatesCopies(m, n, s[1..], u);
        CountSubstituteChar(m, s, u);
        CountSubstituteChar(n, s, u);
        if u <= Substitute(m, s) {
          TokenPersists(m, n, s, u);
        }
    }
  }

  lemma CountSubstituteToken(m: map<string, string>, s: string, k: nat, u: string)
    requires PlainValues(m) && IsToken(u) && u !in m && ScanToken(s) == Some(k)
    ensures Count(u, Substitute(m, s)) == Count(u, Substitute(m, s[k..])) + if s[..k] == u then 1 else 0
  {
    var t := s[..k];
    TokenItself(s, k);
    var rest := Substitute(m, s[k..]);
    if t in m {
      CountSkipsBraceFree(u, m[t], rest);
    } else {
      assert (t + rest)[|t|..] == rest;
      CountSkipsToken(u, t, t + rest);
    }
  }

  lemma CountSubstituteChar(m: map<string, string>, s: string, u: string)
    requires s != "" && ScanToken(s).None?
    ensures Count(u, Substitute(m, s)) == (if u <= Substitute(m, s) then 1 else 0) + Count(u, Substitute(m, s[1..]))
  {
    assert Substitute(m, s)[1..] == Substitute(m, s[1..]);
  }

  lemma TokenPersists(m: map<string, string>, n: map<string, string>, s: string, u: string)
    requires PlainValues(n) && SubMap(m, n) && IsToken(u)
    requires s != "" && ScanToken(s).None? && u <= Substitute(m, s)
    ensures u <= Substitute(n, s)
  {
    TokenShape(u);
    var rest := Substitute(m, s[1..]);
    assert Substitute(m, s)[1..] == rest;
    assert u[1..] <= rest;
    TokenEndPersists(m, n, s[1..], u, 1, u[1..]);
    assert u == [s[0]] + u[1..];
  }

  /** When no copy of `u` has been created, replacing it now is substituting it together with the others. */
  lemma {:induction false} ReplaceJoinsSubstitution(m: map<string, string>, s: string, u: string, v: string)
    requires PlainValues(m) && IsToken(u) && u !in m && BraceFree(v)
    requires Count(u, Substitute(m, s)) == Count(u, s)
    ensures ReplaceAll(Substitute(m, s), u, v) == Substitute(m[u := v], s)
    decreases |s|
  {
    TokensNotEmpty(u);
    hide *;
    if s == "" {
      SubstituteEmpty(m);
      SubstituteEmpty(m[u := v]);
      NothingReplaced(u, v, u);
    } else {
      match ScanToken(s)
      case Some(k) =>
        TokenItself(s, k);
        SubstituteToken(m, s, k);
        SubstituteToken(m[u := v], s, k);
        CountSubstituteToken(m, s, k, u);
        TokenPrefix(s, k);
        CountSkipsToken(u, s[..k], s);
        ReplaceJoinsSubstitution(m, s[k..], u, v);
        TokenJoins(m, s[..k], Substitute(m, s[k..]), u, v);
      case None =>
        CountSubstituteChar(m, s, u);
        SubstituteChar(m, s);
        SubstituteChar(m[u := v], s);
        SubstituteCreatesCopies(map[], m, s[1..], u);
        SubMapOfNothing(m);
        SubstituteNothing(s[1..]);
        TokenAtFront(u, s);
        CountStep(u, s);
        ReplaceMiss(Substitute(m, s), u, v);
        ReplaceJoinsSubstitution(m, s[1..], u, v);
    }
  }

  lemma TokensNotEmpty(u: string)
    requires IsToken(u)
    ensures u != ""
  {
  }

  lemma SubMapOfNothing(m: map<string, string>)
    ensures SubMap(map[], m)
  {
  }

  lemma TokenPrefix(s: string, k: nat)
    requires ScanToken(s) == Some(k)
    ensures k <= |s| && s[..k] <= s
  {
  }

  /** Replacing behind a token that stands in front, or behind its value. */
  lemma TokenJoins(m: map<string, string>, t: string, rest: string, u: string, v: string)
    requires PlainValues(m) && IsToken(t) && IsToken(u) && u !in m
    ensures u != "" && ReplaceAll((if t in m then m[t] else t) + rest, u, v) ==
                         (if t in m[u := v] then m[u := v][t] else t) + ReplaceAll(rest, u, v)
  {
    hide ReplaceAll;
    if t == u {
      assert (t + rest)[|t|..] == rest;
      ReplaceHit(t + rest, u, v);
    } else if t in m {
      ReplaceAllPassesBraceFree(m[t], rest, u, v);
    } else {
      ReplaceAllCopiesToken(t + rest, u, v, t);
      assert (t + rest)[|t|..] == rest;
    }
  }

  lemma {:induction false} ReplaceAllPassesBraceFree(v: string, s: string, t: string, w: string)
    requires IsToken(t) && BraceFree(v)
    ensures ReplaceAll(v + s, t, w) == v + ReplaceAll(s, t, w)
  {
    TokenShape(t);
    if v == "" {
      assert v + s == s;
    } else {
      assert (v + s)[1..] == v[1..] + s && (v + s)[0] == v[0];
      assert v[0] in v && t[0] == '{' && !(t <= v + s);
      ReplaceAllPassesBraceFree(v[1..], s, t, w);
    }
  }

  lemma {:induction false} SubstituteBraces(m: map<string, string>, s: string, u: string, v: string)
    requires PlainValues(m) && IsToken(u) && u !in m && BraceFree(v)
    ensures Braces(Substitute(m[u := v], s)) + 4 * Count(u, s) == Braces(Substitute(m, s))
    decreases |s|
  {
    if s != "" {
      match ScanToken(s)
      case Some(k) =>
        var t := s[..k];
        TokenItself(s, k);
        CountSkipsToken(u, t, s);
        SubstituteBraces(m, s[k..], u, v);
        TokenBraces(t);
        BraceFreeBraces(v);
        BracesConcat(if t in m then m[t] else t, Substitute(m, s[k..]));
        BracesConcat(if t in m[u := v] then m[u := v][t] else t, Substitute(m[u := v], s[k..]));
      case None =>
        TokenAtFront(u, s);
        SubstituteBraces(m, s[1..], u, v);
        BracesConcat([s[0]], Substitute(m, s[1..]));
        BracesConcat([s[0]], Substitute(m[u := v], s[1..]));
    }
  }

  // --- Orders ---

  lemma {:induction false} InOrderKeepsOthers(order: seq<string>, values: map<string, string>, s: string, u: string)
    requires PlainValues(values) && (forall t | t in order :: t in values) && IsToken(u) && u !in order
    ensures Count(u, InOrder(order, values, s)) >= Count(u, s)
  {
    if order != [] {
      var n := |order| - 1;
      assert order[n] in order && forall t | t in order[..n] :: t in order;
      InOrderKeepsOthers(order[..n], values, s, u);
      ReplaceAllKeepsOthers(InOrder(order[..n], values, s), order[n], values[order[n]], u);
    }
  }

  /** As long as nothing is captured, replacing in order is substituting. */
  lemma {:induction false} InOrderSubstitutes(order: seq<string>, values: map<string, string>, s: string)
    requires PlainValues(values) && (forall t | t in order :: t in values) && NoRepeats(order)
    requires NothingCaptured(order, values, s)
    ensures InOrder(order, values, s) == Substitute(Taken(order, values), s)
  {
    if order == [] {
      SubstituteNothing(s);
    } else {
      var n := |order| - 1;
      InitialOrder(order, values, s);
      InOrderSubstitutes(order[..n], values, s);
      ReplaceJoinsSubstitution(Taken(order[..n], values), s, order[n], values[order[n]]);
    }
  }

  /** What an order passes on to the same order without its last token. */
  lemma InitialOrder(order: seq<string>, values: map<string, string>, s: string)
    requires (forall t | t in order :: t in values) && NoRepeats(order) && order != []
    ensures var n := |order| - 1;
            && order[n] in values && order[n] !in order[..n] && NoRepeats(order[..n])
            && (forall t | t in order[..n] :: t in values)
            && (NothingCaptured(order, values, s) <==>
                  && NothingCaptured(order[..n], values, s)
                  && StepIsClean(order, values, s, n))
  {
    var n := |order| - 1;
    assert order[n] in order;
    assert forall t | t in order[..n] :: t in order;
    hide *;
    InitialNoRepeats(order);
    InitialCaptured(order, order[..n], values, s);
  }

  lemma InitialNoRepeats(order: seq<string>)
    requires NoRepeats(order) && order != []
    ensures var n := |order| - 1; order[n] !in order[..n] && NoRepeats(order[..n])
  {
  }

  lemma InitialCaptured(order: seq<string>, initial: seq<string>, values: map<string, string>, s: string)
    requires (forall t | t in order :: t in values) && order != [] && initial == order[..|order| - 1]
    requires forall t | t in initial :: t in values
    ensures NothingCaptured(order, values, s) <==>
              && NothingCaptured(initial, values, s)
              && StepIsClean(order, values, s, |order| - 1)
  {
    hide StepIsClean;
    forall j | 0 <= j < |initial| ensures StepIsClean(initial, values, s, j) <==> StepIsClean(order, values, s, j) {
      StepOfInitial(order, values, s, |initial|, j);
    }
  }

  lemma StepOfInitial(order: seq<string>, values: map<string, string>, s: string, n: nat, j: nat)
    requires j < n <= |order| && (forall t | t in order :: t in values) && (forall t | t in order[..n] :: t in values)
    ensures StepIsClean(order[..n], values, s, j) <==> StepIsClean(order, values, s, j)
  {
    hide Count, Substitute, Taken;
    assert order[..n][..j] == order[..j];
  }

  /** Counting braces tells whether a step has captured something. */
  lemma {:induction false} BracesTell(order: seq<string>, values: map<string, string>, s: string)
    requires PlainValues(values) && (forall t | t in order :: t in values) && NoRepeats(order)
    ensures Braces(InOrder(order, values, s)) <= Braces(Substitute(Taken(order, values), s))
    ensures Braces(InOrder(order, values, s)) == Braces(Substitute(Taken(order, values), s)) ==>
               NothingCaptured(order, values, s)
  {
    if order == [] {
      SubstituteNothing(s);
    } else {
      var n := |order| - 1;
      var u, x := order[n], InOrder(order[..n], values, s);
      InitialOrder(order, values, s);
      BracesTell(order[..n], values, s);
      InOrderKeepsOthers(order[..n], values, s, u);
      ReplaceAllBraces(x, u, values[u]);
      SubstituteBraces(Taken(order[..n], values), s, u, values[u]);
      if Braces(InOrder(order, values, s)) == Braces(Substitute(Taken(order, values), s)) {
        InOrderSubstitutes(order[..n], values, s);
      }
    }
  }

  /** One order: the sequential result is the simultaneous one exactly when nothing is captured on the way. */
  lemma SequentialIsSimultaneousIff(order: seq<string>, values: map<string, string>, s: string)
    requires PlainValues(values) && (forall t | t in order :: t in values) && NoRepeats(order)
    ensures InOrder(order, values, s) == Substitute(Taken(order, values), s) <==> NothingCaptured(order, values, s)
  {
    if NothingCaptured(order, values, s) {
      InOrderSubstitutes(order, values, s);
    }
    BracesTell(order, values, s);
  }

  ghost predicate ListsKeys(order: seq<string>, values: map<string, string>) {
    NoRepeats(order) && forall t :: t in order <==> t in values
  }

  lemma {:induction false} KeysCanBeListed(values: map<string, string>) returns (order: seq<string>)
    ensures ListsKeys(order, values)
    decreases |values|
  {
    if values == map[] {
      order := [];
    } else {
      var t :| t in values;
      order := KeysCanBeListed(values - {t});
      order := order + [t];
    }
  }

  /** For each token, substituting the other tokens creates no new copy of it. */
  ghost predicate NoCopyCreated(values: map<string, string>, s: string) {
    forall u | u in values :: Count(u, Substitute(values - {u}, s)) == Count(u, s)
  }

  ghost predicate OrderIrrelevant(values: map<string, string>, s: string)
    requires PlainValues(values)
  {
    forall order | ListsKeys(order, values) :: InOrder(order, values, s) == Substitute(values, s)
  }

  lemma OrderMattersOnceCopied(values: map<string, string>, s: string, u: string)
    requires PlainValues(values) && u in values && OrderIrrelevant(values, s)
    ensures Count(u, Substitute(values - {u}, s)) == Count(u, s)
  {
    var others := KeysCanBeListed(values - {u});
    AppendKey(others, values, u);
    var order := others + [u];
    SequentialIsSimultaneousIff(order, values, s);
    assert StepIsClean(order, values, s, |others|);
  }

  lemma AppendKey(others: seq<string>, values: map<string, string>, u: string)
    requires u in values && ListsKeys(others, values - {u})
    ensures var order := others + [u];
            ListsKeys(order, values) && order[|others|] == u && order[..|others|] == others
    ensures Taken(others + [u], values) == values && Taken(others, values) == values - {u}
  {
    var order := others + [u];
    assert order[..|others|] == others;
    MemberOfAppend(others, u);
    TakenExactly(order, values, values);
    TakenExactly(others, values, values - {u});
  }

  lemma MemberOfAppend(others: seq<string>, u: string)
    requires NoRepeats(others) && u !in others
    ensures NoRepeats(others + [u])
    ensures forall t :: t in others + [u] <==> t in others || t == u
  {
    assert forall i | 0 <= i < |others| :: others[i] in others;
  }

  lemma NothingCapturedInAnyOrder(values: map<string, string>, s: string, order: seq<string>)
    requires PlainValues(values) && NoCopyCreated(values, s) && ListsKeys(order, values)
    ensures InOrder(order, values, s) == Substitute(values, s)
  {
    TakenExactly(order, values, values);
    forall j | 0 <= j < |order| ensures StepIsClean(order, values, s, j) {
      var u := order[j];
      assert u in order && u !in order[..j];
      SubstituteCreatesCopies(Taken(order[..j], values), values - {u}, s, u);
      SubstituteCreatesCopies(map[], Taken(order[..j], values), s, u);
      SubstituteNothing(s);
    }
    SequentialIsSimultaneousIff(order, values, s);
  }

  /** All orders: replacing one after the other always gives the simultaneous result exactly when no copy is created. */
  lemma EveryOrderIsSimultaneousIff(values: map<string, string>, s: string)
    requires PlainValues(values)
    ensures OrderIrrelevant(values, s) <==> NoCopyCreated(values, s)
  {
    if OrderIrrelevant(values, s) {
      forall u | u in values ensures Count(u, Substitute(values - {u}, s)) == Count(u, s) {
        OrderMattersOnceCopied(values, s, u);
      }
    }
    if NoCopyCreated(values, s) {
      forall order | ListsKeys(order, values) ensures InOrder(order, values, s) == Substitute(values, s) {
        NothingCapturedInAnyOrder(values, s, order);
      }
    }
  }

  /** A token that stands nowhere in a full substitution is not created on the way there. */
  lemma {:induction false} NotCreatedOnTheWay(m: map<string, string>, n: map<string, string>, s: string, u: string)
    requires PlainValues(n) && SubMap(m, n) && IsToken(u) && u !in m && Count(u, Substitute(n, s)) == 0
    ensures Count(u, Substitute(m, s)) == Count(u, s)
    decreases |s|
  {
    if s != "" {
      match ScanToken(s)
      case Some(k) =>
        CountPastToken(n, s, k, u);
        NotCreatedOnTheWay(m, n, s[k..], u);
        TokenItself(s, k);
        CountSubstituteToken(m, s, k, u);
        CountSkipsToken(u, s[..k], s);
      case None =>
        CountSubstituteChar(n, s, u);
        NotCreatedOnTheWay(m, n, s[1..], u);
        CountSubstituteChar(m, s, u);
        if u <= Substitute(m, s) { TokenPersists(m, n, s, u); }
        TokenAtFront(u, s);
    }
  }

  lemma CountPastToken(m: map<string, string>, s: string, k: nat, u: string)
    requires PlainValues(m) && IsToken(u) && ScanToken(s) == Some(k)
    ensures Count(u, Substitute(m, s)) >= Count(u, Substitute(m, s[k..]))
  {
    var t := s[..k];
    TokenItself(s, k);
    var rest := Substitute(m, s[k..]);
    if t in m {
      CountSkipsBraceFree(u, m[t], rest);
    } else {
      assert (t + rest)[|t|..] == rest;
      CountSkipsToken(u, t, t + rest);
    }
  }

  lemma {:induction false} FoundTokenCounts(s: string, t: string)
    requires t in FindTokens(s)
    ensures Count(t, s) >= 1
    decreases |s|
  {
    match ScanToken(s)
    case Some(n) =>
      TokenItself(s, n);
      CountSkipsToken(t, s[..n], s);
      if t != s[..n] { FoundTokenCounts(s[n..], t); }
    case None => FoundTokenCounts(s[1..], t);
  }

  /** Every copy of a token is found. */
  lemma {:induction false} CountedIsFound(s: string, u: string)
    requires IsToken(u) && Count(u, s) > 0
    ensures u in FindTokens(s)
    decreases |s|
  {
    match ScanToken(s)
    case Some(n) =>
      TokenItself(s, n);
      CountSkipsToken(u, s[..n], s);
      if u != s[..n] { CountedIsFound(s[n..], u); }
    case None =>
      TokenAtFront(u, s);
      CountedIsFound(s[1..], u);
  }

  /** In particular the order does not matter when substituting everything at once leaves no token. */
  lemma OrderIrrelevantOnceTokenFree(order: seq<string>, values: map<string, string>, s: string)
    requires PlainValues(values) && ListsKeys(order, values)
    requires FindTokens(Substitute(values, s)) == []
    ensures InOrder(order, values, s) == Substitute(values, s)
  {
    forall u | u in values ensures Count(u, Substitute(values - {u}, s)) == Count(u, s) {
      if Count(u, Substitute(values, s)) > 0 { CountedIsFound(Substitute(values, s), u); }
      NotCreatedOnTheWay(values - {u}, values, s, u);
    }
    EveryOrderIsSimultaneousIff(values, s);
  }

  // --- The condition is not vacuous ---

  lemma {:induction false} SubstituteSkipsBraceFree(m: map<string, string>, x: string, s: string)
    requires BraceFree(x)
    ensures Substitute(m, x + s) == x + Substitute(m, s)
  {
    if x == "" {
      assert x + s == s;
    } else {
      PlainFront(x, s);
      hide *;
      SubstituteSkipsBraceFree(m, x[1..], s);
      SubstituteChar(m, x + s);
      FrontAndRest(x, s);
      FrontAndRest(x, Substitute(m, s));
    }
  }

  lemma FrontAndRest(x: string, s: string)
    requires x != ""
    ensures (x + s)[1..] == x[1..] + s && [x[0]] + (x[1..] + s) == x + s
  {
  }

  lemma PlainFront(x: string, s: string)
    requires BraceFree(x) && x != ""
    ensures ScanToken(x + s).None? && (x + s)[0] == x[0] && BraceFree(x[1..])
  {
    assert x[0] in x;
  }

  /** Double braces around something that holds a token are no token themselves. */
  lemma OuterBracesAreText(m: map<string, string>, x: string, inner: string, rest: string, u: string)
    requires BraceFree(x) && IsToken(inner) && IsToken(u)
    ensures Substitute(m, "{{" + (x + (inner + rest))) == "{{" + (x + Substitute(m, inner + rest))
    ensures Count(u, "{{" + (x + (inner + rest))) == Count(u, inner + rest)
  {
    var tail := x + (inner + rest);
    BracesAroundToken(x, inner, rest);
    hide *;
    TwoBraces(tail);
    TwoBraces(x + Substitute(m, inner + rest));
    UnscannedIsText(m, "{" + ("{" + tail), u);
    UnscannedIsText(m, "{" + tail, u);
    SubstituteSkipsBraceFree(m, x, inner + rest);
    CountSkipsBraceFree(u, x, inner + rest);
  }

  lemma TwoBraces(s: string)
    ensures "{{" + s == "{" + ("{" + s) && ("{" + s)[1..] == s && ("{" + ("{" + s))[1..] == "{" + s
  {
  }

  /** A character at which no token starts is copied. */
  lemma UnscannedIsText(m: map<string, string>, s: string, u: string)
    requires IsToken(u) && s != "" && ScanToken(s).None?
    ensures Substitute(m, s) == [s[0]] + Substitute(m, s[1..]) && Count(u, s) == Count(u, s[1..])
  {
    TokenAtFront(u, s);
    hide *;
    SubstituteChar(m, s);
    CountStep(u, s);
  }

  lemma BracesAroundToken(x: string, inner: string, rest: string)
    requires BraceFree(x) && IsToken(inner)
    ensures ScanToken("{{" + (x + (inner + rest))).None?
    ensures ScanToken("{" + (x + (inner + rest))).None?
  {
    TokenShape(inner);
    var tail := x + (inner + rest);
    assert tail[..|x|] == x && tail[|x|] == '{';
    RunLengthUnique(tail, |x|);
    assert ("{{" + tail)[2..] == tail;
    if x != "" {
      assert ("{" + tail)[1] == x[0] && x[0] in x;
    } else {
      assert ("{" + tail)[2..][0] == inner[1] == '{';
    }
  }

  lemma ClosingBracesAreText(m: map<string, string>, s: string, u: string)
    requires IsToken(u)
    ensures Substitute(m, "}}" + s) == "}}" + Substitute(m, s)
    ensures Count(u, "}}" + s) == Count(u, s)
  {
    hide *;
    assert ("}" + s)[1..] == s && ("}" + ("}" + s))[1..] == "}" + s && "}}" + s == "}" + ("}" + s);
    ClosingBraceIsText(m, s, u);
    ClosingBraceIsText(m, "}" + s, u);
    assert "}" + ("}" + Substitute(m, s)) == "}}" + Substitute(m, s);
  }

  lemma ClosingBraceIsText(m: map<string, string>, s: string, u: string)
    requires IsToken(u)
    ensures Substitute(m, "}" + s) == "}" + Substitute(m, s) && Count(u, "}" + s) == Count(u, s)
  {
    TokenShape(u);
    assert ("}" + s)[1..] == s;
    NotAToken("}" + s);
    hide *;
    SubstituteChar(m, "}" + s);
    CountStep(u, "}" + s);
  }

  lemma NotAToken(s: string)
    requires s != "" && s[0] != '{'
    ensures ScanToken(s).None?
  {
  }

  /**
   * A nested token: replacing the inner token completes the outer braces to a token that stands elsewhere
   * in the text, so the order matters.
   */
  lemma NestedTokenIsCaptured(x: string, inner: string, v: string, y: string, outer: string)
    requires BraceFree(x) && BraceFree(v) && BraceFree(y)
    requires outer == "{{" + (x + (v + (y + "}}")))
    requires IsToken(inner) && IsToken(outer) && inner != outer
    ensures var s := "{{" + (x + (inner + (y + ("}}" + outer))));
            && Count(outer, s) == 1
            && Substitute(map[inner := v], s) == outer + outer
            && Count(outer, outer + outer) == 2
  {
    var m := map[inner := v];
    var rest := y + ("}}" + outer);
    OuterBracesAreText(m, x, inner, rest, outer);
    TokenPassed(m, inner, rest, outer);
    OuterTail(m, y, outer);
    CompletedOuter(x, v, y, outer);
    TokenPassed(m, outer, outer, outer);
    TokenAlone(m, outer);
  }

  lemma CompletedOuter(x: string, v: string, y: string, outer: string)
    requires outer == "{{" + (x + (v + (y + "}}")))
    ensures "{{" + (x + (v + (y + ("}}" + outer)))) == outer + outer
  {
    assert y + ("}}" + outer) == (y + "}}") + outer;
    assert v + ((y + "}}") + outer) == (v + (y + "}}")) + outer;
    assert x + ((v + (y + "}}")) + outer) == (x + (v + (y + "}}"))) + outer;
  }

  lemma TokenAlone(m: map<string, string>, t: string)
    requires IsToken(t) && t !in m
    ensures Substitute(m, t) == t && Count(t, t) == 1
  {
    assert t + "" == t;
    TokenPassed(m, t, "", t);
  }

  lemma OuterTail(m: map<string, string>, y: string, outer: string)
    requires BraceFree(y) && IsToken(outer) && outer !in m
    ensures Substitute(m, y + ("}}" + outer)) == y + ("}}" + outer)
    ensures Count(outer, y + ("}}" + outer)) == 1
  {
    CountSkipsBraceFree(outer, y, "}}" + outer);
    SubstituteSkipsBraceFree(m, y, "}}" + outer);
    ClosingBracesAreText(m, outer, outer);
    TokenAlone(m, outer);
  }

  lemma TokenPassed(m: map<string, string>, t: string, rest: string, u: string)
    requires IsToken(t) && IsToken(u)
    ensures Substitute(m, t + rest) == (if t in m then m[t] else t) + Substitute(m, rest)
    ensures Count(u, t + rest) == (if t == u then 1 else 0) + Count(u, rest)
  {
    var s := t + rest;
    assert s[..|t|] == t && s[|t|..] == rest;
    TokenAtFront(t, s);
    CountSkipsToken(u, t, s);
  }

  lemma TokenOf(subject: string, path: string, p: nat)
    requires BraceFree(subject) && BraceFree(path) && path != "" && 1 <= p < |subject| - 1 && subject[p] == '.'
    ensures IsToken("{{" + subject + "@" + path + "}}")
  {
    var body := subject + "@" + path;
    var t := "{{" + subject + "@" + path + "}}";
    assert t[2..] == body + "}}" && t[2..][..|body|] == body && t[2..|body| + 2] == body;
    RunLengthUnique(t[2..], |body|);
    assert body[p] == '.' && body[|subject|] == '@';
  }

  /** Replacing the inner token first and the completed one next is not the simultaneous replacement. */
  lemma CaptureChangesResult(x: string, inner: string, v: string, y: string, outer: string, w: string)
    requires BraceFree(x) && BraceFree(v) && BraceFree(y) && BraceFree(w)
    requires outer == "{{" + (x + (v + (y + "}}")))
    requires IsToken(inner) && IsToken(outer) && inner != outer
    ensures var s, values := "{{" + (x + (inner + (y + ("}}" + outer)))), map[inner := v, outer := w];
            && ListsKeys([inner, outer], values)
            && InOrder([inner, outer], values, s) != Substitute(values, s)
  {
    var s, values := "{{" + (x + (inner + (y + ("}}" + outer)))), map[inner := v, outer := w];
    var order := [inner, outer];
    NestedTokenIsCaptured(x, inner, v, y, outer);
    assert order[..1] == [inner];
    TakenExactly(order[..1], values, map[inner := v]);
    TakenExactly(order, values, values);
    assert !StepIsClean(order, values, s, 1);
    SequentialIsSimultaneousIff(order, values, s);
  }

  /** A concrete text: `{{b.c@$.x}}` becomes V, which completes a second copy of `{{a.V@$.y}}`. */
  lemma SequentialCanDiffer(s: string, inner: string, outer: string)
    requires s == "{{a.{{b.c@$.x}}@$.y}}{{a.V@$.y}}" && inner == "{{b.c@$.x}}" && outer == "{{a.V@$.y}}"
    ensures PlainValues(map[inner := "V", outer := "W"]) && ListsKeys([inner, outer], map[inner := "V", outer := "W"])
    ensures InOrder([inner, outer], map[inner := "V", outer := "W"], s) !=
              Substitute(map[inner := "V", outer := "W"], s)
  {
    hide *;
    ExampleTokens(inner, outer);
    var x, v, y, w := ExampleParts(s, inner, outer);
    CaptureChangesResult(x, inner, v, y, outer, w);
    ExampleValues(inner, outer, v, w);
  }

  lemma ExampleParts(s: string, inner: string, outer: string) returns (x: string, v: string, y: string, w: string)
    requires s == "{{a.{{b.c@$.x}}@$.y}}{{a.V@$.y}}" && inner == "{{b.c@$.x}}" && outer == "{{a.V@$.y}}"
    ensures v == "V" && w == "W" && BraceFree(x) && BraceFree(v) && BraceFree(y) && BraceFree(w)
    ensures outer == "{{" + (x + (v + (y + "}}")))
    ensures s == "{{" + (x + (inner + (y + ("}}" + outer))))
  {
    x, v, y, w := "a.", "V", "@$.y", "W";
    ExampleOuter(outer);
    ExampleText(s, inner, outer);
    hide *;
  }

  lemma ExampleOuter(outer: string)
    requires outer == "{{a.V@$.y}}"
    ensures outer == "{{" + ("a." + ("V" + ("@$.y" + "}}")))
  {
    hide *;
  }

  lemma ExampleText(s: string, inner: string, outer: string)
    requires s == "{{a.{{b.c@$.x}}@$.y}}{{a.V@$.y}}" && inner == "{{b.c@$.x}}" && outer == "{{a.V@$.y}}"
    ensures s == "{{" + ("a." + (inner + ("@$.y" + ("}}" + outer))))
  {
    hide *;
  }

  lemma ExampleValues(inner: string, outer: string, v: string, w: string)
    requires IsToken(inner) && IsToken(outer) && BraceFree(v) && BraceFree(w)
    ensures PlainValues(map[inner := v, outer := w])
  {
    hide IsToken, BraceFree;
  }

  lemma ExampleTokens(inner: string, outer: string)
    requires inner == "{{b.c@$.x}}" && outer == "{{a.V@$.y}}"
    ensures IsToken(inner) && IsToken(outer) && inner != outer
  {
    assert inner == "{{" + "b.c" + "@" + "$.x" + "}}" && outer == "{{" + "a.V" + "@" + "$.y" + "}}";
    assert inner[2] != outer[2];
    ExampleToken("b.c", "$.x");
    ExampleToken("a.V", "$.y");
    hide *;
  }

  lemma ExampleToken(subject: string, path: string)
    requires |subject| == 3 && path != "" && subject[1] == '.'
    requires !IsBrace(subject[0]) && !IsBrace(subject[2]) && BraceFree(path)
    ensures IsToken("{{" + subject + "@" + path + "}}")
  {
    hide IsToken;
    TokenOf(subject, path, 1);
  }
}
