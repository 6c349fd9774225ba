/** The points of a replacement step: how many there are, in which order, and what each does to a text. */
module ReplacementPoints {
  import opened TokenText
  import opened Substitution
  import opened FlatText
  import opened JsonPathReplacer

  // --- The Cartesian product in mixed-radix order ---

  function Product<T>(groups: seq<seq<T>>): nat {
    if groups == [] then 1 else |groups[0]| * Product(groups[1..])
  }

  lemma SignOfMultiple(d: int, p: nat)
    ensures d >= 0 ==> d * p >= 0
    ensures d >= 1 ==> d * p >= p
    ensures d <= -1 ==> d * p + p <= 0
  {
    if d >= 1 {
      assert d * p == (d - 1) * p + p;
    } else if d <= -1 {
      assert d * p == (d + 1) * p - p;
    }
  }

  lemma DigitsInRange(k: nat, a: nat, b: nat)
    requires k < a * b
    ensures b > 0 && k / b < a && k % b < b
  {
    assert b == 0 ==> a * b == 0;
    var d := k / b - a;
    assert k == (k / b) * b + k % b;
    assert (k / b) * b == d * b + a * b;
    SignOfMultiple(d, b);
  }

  lemma QuotientAndRemainder(q: nat, p: nat, r: nat)
    requires r < p
    ensures (q * p + r) / p == q && (q * p + r) % p == r
  {
    var k := q * p + r;
    var d := k / p - q;
    assert k == (k / p) * p + k % p;
    assert (k / p) * p == d * p + q * p;
    SignOfMultiple(d, p);
  }

  /** The `k`-th combination: `k` is read as a number whose digits choose from the groups, the last one lowest. */
  function PointAt<T>(groups: seq<seq<T>>, k: nat): seq<T>
    requires k < Product(groups)
  {
    if groups == [] then []
    else
      var p := Product(groups[1..]);
      DigitsInRange(k, |groups[0]|, p);
      [groups[0][k / p]] + PointAt(groups[1..], k % p)
  }

  lemma {:induction false} PrependEachAt<T>(heads: seq<T>, tails: seq<seq<T>>, k: nat)
    ensures |PrependEach(heads, tails)| == |heads| * |tails|
    ensures k < |heads| * |tails| ==>
              |tails| > 0 && k / |tails| < |heads| && k % |tails| < |tails| &&
              PrependEach(heads, tails)[k] == [heads[k / |tails|]] + tails[k % |tails|]
  {
    var n := |tails|;
    if heads != [] {
      var rest := PrependEach(heads[1..], tails);
      var first := seq(n, i requires 0 <= i < n => [heads[0]] + tails[i]);
      assert PrependEach(heads, tails) == first + rest;
      ProductStep(|heads|, n);
      PrependEachAt(heads[1..], tails, if k < n then 0 else k - n);
      if k < n {
        QuotientAndRemainder(0, n, k);
      } else if k < |heads| * n {
        NextQuotient(k, n);
        DigitsInRange(k - n, |heads| - 1, n);
        assert (first + rest)[k] == rest[k - n];
        assert heads[1..][(k - n) / n] == heads[k / n];
      }
    }
  }

  lemma ProductStep(a: nat, n: nat)
    requires a > 0
    ensures a * n == n + (a - 1) * n
  {
  }

  lemma NextQuotient(k: nat, n: nat)
    requires 0 < n <= k
    ensures k / n == (k - n) / n + 1 && k % n == (k - n) % n
  {
    var q, r := (k - n) / n, (k - n) % n;
    assert k == (q + 1) * n + r;
    QuotientAndRemainder(q + 1, n, r);
  }

  /** The points are exactly the combinations, each at its number. */
  lemma {:induction false} PointsAreTheProduct<T>(groups: seq<seq<T>>, k: nat)
    requires groups != []
    ensures |GetPoints(groups)| == Product(groups)
    ensures k < Product(groups) ==> GetPoints(groups)[k] == PointAt(groups, k)
    decreases |groups|
  {
    if |groups| == 1 {
      assert groups[1..] == [];
      assert Product(groups) == |groups[0]| * 1;
      if k < Product(groups) {
        assert k / 1 == k && k % 1 == 0;
        assert PointAt(groups, k) == [groups[0][k]] + PointAt(groups[1..], 0);
      }
    } else {
      var tails := GetPoints(groups[1..]);
      PointsAreTheProduct(groups[1..], 0);
      PrependEachAt(groups[0], tails, k);
      if k < Product(groups) {
        PointsAreTheProduct(groups[1..], k % |tails|);
      }
    }
  }

  lemma DigitsBelowProduct(d: nat, a: nat, p: nat, low: nat)
    requires d < a && low < p
    ensures 0 <= d * p + low < a * p
  {
    var rest: int := a - d - 1;
    assert a * p == d * p + p + rest * p;
    SignOfMultiple(rest, p);
    SignOfMultiple(d, p);
  }

  /** The number of the combination that takes element `choice[j]` of group `j`. */
  function Rank<T>(groups: seq<seq<T>>, choice: seq<nat>): (k: nat)
    requires |choice| == |groups| && forall j | 0 <= j < |groups| :: choice[j] < |groups[j]|
    ensures k < Product(groups)
  {
    if groups == [] then 0
    else
      var p, low := Product(groups[1..]), Rank(groups[1..], choice[1..]);
      DigitsBelowProduct(choice[0], |groups[0]|, p, low);
      choice[0] * p + low
  }

  /** Every combination occurs. */
  lemma {:induction false} EveryChoiceIsAPoint<T>(groups: seq<seq<T>>, choice: seq<nat>)
    requires |choice| == |groups| && forall j | 0 <= j < |groups| :: choice[j] < |groups[j]|
    ensures var point := PointAt(groups, Rank(groups, choice));
            |point| == |groups| && forall j | 0 <= j < |groups| :: point[j] == groups[j][choice[j]]
  {
    if groups != [] {
      var p, low := Product(groups[1..]), Rank(groups[1..], choice[1..]);
      EveryChoiceIsAPoint(groups[1..], choice[1..]);
      QuotientAndRemainder(choice[0], p, low);
      var point := PointAt(groups, Rank(groups, choice));
      assert point == [groups[0][choice[0]]] + PointAt(groups[1..], low);
      assert forall j | 1 <= j < |groups| :: groups[j] == groups[1..][j - 1] && choice[j] == choice[1..][j - 1];
    }
  }

  // --- A point as an order of replacements ---

  function TokensOf(point: seq<Replacement>): seq<string> {
    seq(|point|, i requires 0 <= i < |point| => point[i].token)
  }

  /** For string values, applying a point is replacing its tokens one after the other. */
  lemma {:induction false} ApplyPointInOrder(point: seq<Replacement>, values: map<string, string>, s: string)
    requires forall r: Replacement | r in point ::
                IsToken(r.token) && r.value.Text? && r.token in values && values[r.token] == r.value.text
    ensures forall t | t in TokensOf(point) :: t in values && IsToken(t)
    ensures ApplyPoint(point, s) == InOrder(TokensOf(point), values, s)
  {
    if point != [] {
      var n := |point| - 1;
      assert point[n] in point;
      ApplyPointInOrder(point[..n], values, s);
      assert TokensOf(point)[..n] == TokensOf(point[..n]);
    }
  }

  // --- What a point does to the braces of a text ---

  function Blank(tokens: set<string>): map<string, string> {
    map t | t in tokens :: ""
  }

  lemma {:induction false} BlankIsOutside(tokens: set<string>, s: string)
    requires forall t | t in FindTokens(s) :: t in tokens
    ensures Substitute(Blank(tokens), s) == Outside(s)
    decreases |s|
  {
    if s != "" {
      match ScanToken(s)
      case Some(n) =>
        assert FindTokens(s) == [s[..n]] + FindTokens(s[n..]);
        BlankIsOutside(tokens, s[n..]);
      case None => BlankIsOutside(tokens, s[1..]);
    }
  }

  ghost predicate PlainPoint(point: seq<Replacement>) {
    forall r | r in point :: IsToken(r.token) && BraceFree(r.value.text)
  }

  lemma ReplaceTokenWeight(t: string, v: Value, s: string)
    requires IsToken(t) && BraceFree(v.text)
    ensures t != "" && Braces(ReplaceToken(t, v, s)) + 4 * Count(t, s) <= Braces(s)
    ensures forall u | IsToken(u) && u != t :: Count(u, ReplaceToken(t, v, s)) >= Count(u, s)
  {
    assert |t| > 0;
    var next := if v.Scalar? then ReplaceAll(s, Quoted(t), v.text) else s;
    if v.Scalar? {
      QuotedBraces(s, t, v.text);
      QuotedKeeps(s, t, v.text, t);
    }
    ReplaceAllBraces(next, t, v.text);
    forall u | IsToken(u) && u != t ensures Count(u, ReplaceToken(t, v, s)) >= Count(u, s) {
      if v.Scalar? { QuotedKeeps(s, t, v.text, u); }
      ReplaceAllKeepsOthers(next, t, v.text, u);
    }
  }

  lemma {:induction false} ApplyPointKeepsOthers(point: seq<Replacement>, s: string, u: string)
    requires PlainPoint(point) && IsToken(u) && forall r | r in point :: r.token != u
    ensures Count(u, ApplyPoint(point, s)) >= Count(u, s)
  {
    if point != [] {
      var n := |point| - 1;
      assert point[n] in point;
      ApplyPointKeepsOthers(point[..n], s, u);
      ReplaceTokenWeight(point[n].token, point[n].value, ApplyPoint(point[..n], s));
    }
  }

  /** A point leaves at most the braces that blanking its tokens would leave. */
  lemma {:induction false} ApplyPointBlanks(point: seq<Replacement>, s: string, tokens: set<string>)
    requires PlainPoint(point) && NoRepeats(TokensOf(point))
    requires tokens == set t | t in TokensOf(point)
    ensures Braces(ApplyPoint(point, s)) <= Braces(Substitute(Blank(tokens), s))
  {
    if point == [] {
      assert Blank(tokens) == map[];
      SubstituteNothing(s);
    } else {
      var n := |point| - 1;
      var r := point[n];
      assert r in point;
      InitialPoint(point, tokens);
      var others := tokens - {r.token};
      ApplyPointBlanks(point[..n], s, others);
      ApplyPointKeepsOthers(point[..n], s, r.token);
      ReplaceTokenWeight(r.token, r.value, ApplyPoint(point[..n], s));
      assert Blank(others)[r.token := ""] == Blank(tokens);
      hide Braces, Substitute, Blank, Count, ReplaceToken, BraceFree, IsToken, TokensOf;
      BlankBraces(Blank(others), s, r.token);
    }
  }

  lemma BlankBraces(m: map<string, string>, s: string, t: string)
    requires PlainValues(m) && IsToken(t) && t !in m
    ensures Braces(Substitute(m[t := ""], s)) + 4 * Count(t, s) == Braces(Substitute(m, s))
  {
    SubstituteBraces(m, s, t, "");
  }

  /**
   * A point removes at least the braces of the copies that the text held of its tokens: if these are all its tokens, no
   * more braces are left than stood outside them.
   */
  lemma ApplyPointErases(point: seq<Replacement>, s: string, tokens: set<string>)
    requires PlainPoint(point) && NoRepeats(TokensOf(point)) && tokens == set t | t in TokensOf(point)
    ensures Braces(ApplyPoint(point, s)) <= Braces(Substitute(Blank(tokens), s))
    ensures (forall t | t in FindTokens(s) :: t in tokens) ==> Braces(ApplyPoint(point, s)) <= Braces(Outside(s))
  {
    ApplyPointBlanks(point, s, tokens);
    hide ApplyPoint, Braces, Substitute, Outside, Blank, FindTokens, TokensOf, PlainPoint;
    if forall t | t in FindTokens(s) :: t in tokens { BlankIsOutside(tokens, s); }
  }

  lemma InitialPoint(point: seq<Replacement>, tokens: set<string>)
    requires PlainPoint(point) && NoRepeats(TokensOf(point)) && point != []
    requires tokens == set t | t in TokensOf(point)
    ensures var n := |point| - 1;
            && PlainPoint(point[..n]) && NoRepeats(TokensOf(point[..n]))
            && tokens - {point[n].token} == (set t | t in TokensOf(point[..n]))
            && point[n].token in tokens && point[n].token !in tokens - {point[n].token}
            && PlainValues(Blank(tokens - {point[n].token}))
            && forall q | q in point[..n] :: q.token != point[n].token
  {
    var n := |point| - 1;
    var all, before := TokensOf(point), TokensOf(point[..n]);
    assert all == before + [point[n].token];
    assert forall i | 0 <= i < n :: before[i] == all[i] && all[i] != all[n];
    forall t | t in tokens ensures IsToken(t) {
      var i :| 0 <= i < |point| && all[i] == t;
      assert point[i] in point;
    }
    forall q | q in point[..n] ensures q.token != point[n].token {
      var i :| 0 <= i < n && point[i] == q;
      assert all[i] == q.token;
    }
  }

  // --- Flat texts ---

  /** Applying a point to a flat text leaves a flat text, with exactly those tokens that the point does not replace. */
  ghost predicate PointRemains(point: seq<Replacement>, s: string, y: string) {
    Flat(y) && forall u :: u in FindTokens(y) <==> u in FindTokens(s) && u !in TokensOf(point)
  }

  lemma {:induction false} PointOnFlatText(point: seq<Replacement>, s: string)
    requires PlainPoint(point) && Flat(s)
    ensures PointRemains(point, s, ApplyPoint(point, s))
  {
    hide *;
    PointStep(point, s);
    if point != [] {
      var n := |point| - 1;
      PointOnFlatText(point[..n], s);
      var before := ApplyPoint(point[..n], s);
      RemainsFlat(point[..n], s, before);
      ReplaceTokenOnFlatText(point[n].token, point[n].value, before);
      RemainsStep(point, s, before, ReplaceToken(point[n].token, point[n].value, before));
    }
  }

  lemma PointStep(point: seq<Replacement>, s: string)
    requires PlainPoint(point) && Flat(s)
    ensures ProperPoint(point) && (point == [] ==> PointRemains(point, s, ApplyPoint(point, s)))
    ensures point != [] ==>
              var n := |point| - 1;
              && PlainPoint(point[..n]) && ProperPoint(point[..n]) && IsToken(point[n].token) && point[n].token != ""
              && BraceFree(point[n].value.text)
              && ApplyPoint(point, s) == ReplaceToken(point[n].token, point[n].value, ApplyPoint(point[..n], s))
  {
    hide ReplaceToken, BraceFree, Flat, FindTokens;
    if point != [] {
      assert point[|point| - 1] in point;
      TokensNotEmpty(point[|point| - 1].token);
    }
    hide IsToken;
  }

  lemma RemainsFlat(point: seq<Replacement>, s: string, y: string)
    requires PointRemains(point, s, y)
    ensures Flat(y)
  {
  }

  lemma RemainsStep(point: seq<Replacement>, s: string, before: string, after: string)
    requires point != [] && PointRemains(point[..|point| - 1], s, before) && Flat(after)
    requires forall u :: u in FindTokens(after) <==> u in FindTokens(before) && u != point[|point| - 1].token
    ensures PointRemains(point, s, after)
  {
    var n := |point| - 1;
    assert TokensOf(point) == TokensOf(point[..n]) + [point[n].token];
  }

  lemma ReplaceTokenOnFlatText(t: string, v: Value, s: string)
    requires IsToken(t) && BraceFree(v.text) && Flat(s)
    ensures t != "" && Flat(ReplaceToken(t, v, s))
    ensures forall u :: u in FindTokens(ReplaceToken(t, v, s)) <==> u in FindTokens(s) && u != t
  {
    assert |t| > 0;
    var next := if v.Scalar? then ReplaceAll(s, Quoted(t), v.text) else s;
    forall u | u in FindTokens(s) && u != t ensures u in FindTokens(ReplaceToken(t, v, s)) {
      FoundTokenCounts(s, u);
      ReplaceTokenWeight(t, v, s);
      CountedIsFound(ReplaceToken(t, v, s), u);
    }
    if v.Scalar? {
      UnquotingRewrites(s, t, v.text);
      RewritingRemains(s, next, {});
    }
    ReplaceAllRewrites(next, t, v.text);
    RewritingRemains(next, ReplaceAll(next, t, v.text), {t});
  }
}
