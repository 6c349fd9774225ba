/** Following redirects from one path to the next until there is none, or until they run in a circle. */
module RedirectChain {
  import opened Wrappers

  datatype Step = Step(from: string, to: string)

  /** Redirects are stored without leading slashes. */
  function WithoutSlashes(path: string): string {
    if path != "" && path[0] == '/' then WithoutSlashes(path[1..]) else path
  }

  function Next(redirects: map<string, string>, path: string): Option<string> {
    if WithoutSlashes(path) in redirects then Some(redirects[WithoutSlashes(path)]) else None
  }

  /** Where `n` redirects lead, if there are that many. */
  function Followed(redirects: map<string, string>, start: string, n: nat): Option<string> {
    if n == 0 then Some(start)
    else match Followed(redirects, start, n - 1) case None => None case Some(path) => Next(redirects, path)
  }

  ghost predicate NeverEnds(redirects: map<string, string>, start: string) {
    forall n: nat :: Followed(redirects, start, n).Some?
  }

  /** The first `n` targets, in order. */
  ghost predicate Traced(redirects: map<string, string>, start: string, targets: seq<string>) {
    forall i | 0 <= i < |targets| :: Followed(redirects, start, i + 1) == Some(targets[i])
  }

  ghost predicate Distinct(s: seq<string>) {
    forall i, j | 0 <= i < j < |s| :: s[i] != s[j]
  }

  function RedirectUrl(path: string, query: string, passThrough: bool): string {
    if query != "" && query != "0" && passThrough then path + "?" + query else path
  }

  /** One step of the trace for each redirect followed. */
  function Trace(start: string, targets: seq<string>, query: string, passThrough: bool): seq<Step> {
    if targets == [] then []
    else
      var from := if |targets| == 1 then start else targets[|targets| - 2];
      Trace(start, targets[..|targets| - 1], query, passThrough) +
      [Step(RedirectUrl(from, query, passThrough), RedirectUrl(targets[|targets| - 1], query, passThrough))]
  }

  /** What chasing redirects from `start` along `targets` ends with. */
  ghost predicate Chased(redirects: map<string, string>, start: string, query: string, passThrough: bool,
                         targets: seq<string>, destination: string, trace: seq<Step>, infinite: bool, lookups: nat) {
    && Traced(redirects, start, targets) && trace == Trace(start, targets, query, passThrough)
    && destination == (if targets == [] then start else targets[|targets| - 1])
    && lookups == |targets| + (if infinite then 0 else 1)
    && if infinite
       then targets != [] && Distinct(targets[..|targets| - 1]) && destination in targets[..|targets| - 1]
       else Distinct(targets) && Next(redirects, destination).None?
  }

  /**
   * Follows redirects, and passes on the path they lead to if there are any. The path asked for may begin with any
   * number of slashes; the trace begins with its redirect.
   */
  method FollowRedirects(redirects: map<string, string>, start: string, query: string, passThrough: bool)
    returns (destination: string, path: Option<string>, trace: seq<Step>, infinite: bool, lookups: nat)
    ensures exists targets ::
              Chased(redirects, start, query, passThrough, targets, destination, trace, infinite, lookups)
    ensures lookups <= |redirects| + 1
    ensures infinite <==> NeverEnds(redirects, start)
    ensures path == if trace == [] then None else Some(RedirectUrl(destination, query, passThrough))
    ensures trace == [] <==> forall key | PlainKey(key) && Slashed(start, key) :: key !in redirects
    ensures forall key | PlainKey(key) && Slashed(start, key) && key in redirects ::
              && trace != [] && trace[0].from == RedirectUrl(start, query, passThrough)
              && trace[0].to == RedirectUrl(redirects[key], query, passThrough)
  {
    hide *;
    destination, trace, infinite, lookups := Chase(redirects, start, query, passThrough);
    path := if trace == [] then None else Some(RedirectUrl(destination, query, passThrough));
    ghost var targets :| Chased(redirects, start, query, passThrough, targets, destination, trace, infinite, lookups);
    ChasedFromStart(redirects, start, query, passThrough, targets, destination, trace, infinite, lookups);
  }

  lemma ChasedFromStart(redirects: map<string, string>, start: string, query: string, passThrough: bool,
                        targets: seq<string>, destination: string, trace: seq<Step>, infinite: bool, lookups: nat)
    requires Chased(redirects, start, query, passThrough, targets, destination, trace, infinite, lookups)
    ensures trace == [] <==> forall key | PlainKey(key) && Slashed(start, key) :: key !in redirects
    ensures forall key | PlainKey(key) && Slashed(start, key) && key in redirects ::
              && trace != [] && trace[0].from == RedirectUrl(start, query, passThrough)
              && trace[0].to == RedirectUrl(redirects[key], query, passThrough)
  {
    hide Trace, Next, Traced, RedirectUrl, Slashed, PlainKey;
    FirstRedirect(redirects, start, targets);
    FirstEntry(start, targets, query, passThrough);
  }

  /**
   * The loop ends without the help of a bound: a target that has been seen before stops it, and there are no more
   * targets than redirects.
   */
  method Chase(redirects: map<string, string>, start: string, query: string, passThrough: bool)
    returns (destination: string, trace: seq<Step>, infinite: bool, lookups: nat)
    ensures exists targets ::
              Chased(redirects, start, query, passThrough, targets, destination, trace, infinite, lookups)
    ensures lookups <= |redirects| + 1
    ensures infinite <==> NeverEnds(redirects, start)
  {
    hide RedirectUrl, Trace, Followed;
    NothingTraced(redirects, start, query, passThrough);
    destination, trace, infinite, lookups := start, [], false, 0;
    var traced: seq<string> := [];
    while true
      invariant !infinite && lookups == |traced| && Distinct(traced) && Traced(redirects, start, traced)
      invariant trace == Trace(start, traced, query, passThrough)
      invariant destination == if traced == [] then start else traced[|traced| - 1]
      decreases |redirects| - |traced|
    {
      TargetsAreValues(redirects, start, traced);
      lookups := lookups + 1;
      if WithoutSlashes(destination) !in redirects {
        EndFound(redirects, start, traced);
        break;
      }
      var to := redirects[WithoutSlashes(destination)];
      trace := trace + [Step(RedirectUrl(destination, query, passThrough), RedirectUrl(to, query, passThrough))];
      destination := to;
      infinite := destination in traced;
      TraceStep(redirects, start, traced, to, query, passThrough);
      if infinite {
        CircleFound(redirects, start, traced, to);
        traced := traced + [to];
        break;
      }
      TargetsAreValues(redirects, start, traced + [to]);
      traced := traced + [to];
    }
    assert infinite ==> traced[..|traced| - 1] + [destination] == traced;
    assert Chased(redirects, start, query, passThrough, traced, destination, trace, infinite, lookups);
  }

  /** Keys as they are stored: not beginning with a slash. */
  predicate PlainKey(key: string) {
    key == "" || key[0] != '/'
  }

  /** `path` is `key` with any number of slashes in front. */
  ghost predicate Slashed(path: string, key: string) {
    |key| <= |path| && path[|path| - |key|..] == key && forall i | 0 <= i < |path| - |key| :: path[i] == '/'
  }

  /** All slashes in front of a path are left out when its redirect is looked up, and nothing else is. */
  lemma {:induction false} NextIgnoresSlashes(redirects: map<string, string>, path: string, key: string)
    requires PlainKey(key) && Slashed(path, key)
    ensures Next(redirects, path) == if key in redirects then Some(redirects[key]) else None
    decreases |path|
  {
    if |path| == |key| {
      assert path[0..] == path;
    } else {
      assert path[1..][|path[1..]| - |key|..] == path[|path| - |key|..];
      assert forall i | 0 <= i < |path[1..]| - |key| :: path[1..][i] == path[i + 1];
      NextIgnoresSlashes(redirects, path[1..], key);
    }
  }

  lemma {:induction false} KeyOfPath(path: string) returns (key: string)
    ensures PlainKey(key) && Slashed(path, key)
    decreases |path|
  {
    if path != "" && path[0] == '/' {
      key := KeyOfPath(path[1..]);
      assert path[|path| - |key|..] == path[1..][|path[1..]| - |key|..];
      assert forall i | 0 < i < |path| - |key| :: path[i] == path[1..][i - 1];
    } else {
      key := path;
    }
  }

  /** Whether the path asked for has a redirect decides whether anything is followed. */
  lemma FirstRedirect(redirects: map<string, string>, start: string, targets: seq<string>)
    requires Traced(redirects, start, targets) && (targets == [] ==> Next(redirects, start).None?)
    ensures targets == [] <==> forall key | PlainKey(key) && Slashed(start, key) :: key !in redirects
    ensures forall key | PlainKey(key) && Slashed(start, key) && key in redirects ::
              targets != [] && targets[0] == redirects[key]
  {
    var found := KeyOfPath(start);
    NextIgnoresSlashes(redirects, start, found);
    assert Followed(redirects, start, 0) == Some(start);
    assert targets != [] ==> Followed(redirects, start, 0 + 1) == Some(targets[0]);
    forall key | PlainKey(key) && Slashed(start, key)
      ensures Next(redirects, start) == if key in redirects then Some(redirects[key]) else None
    {
      NextIgnoresSlashes(redirects, start, key);
    }
  }

  /** Entry number `i` of the trace leads from the target before it, or the start, to its own. */
  lemma {:induction false} TraceEntries(start: string, targets: seq<string>, query: string, passThrough: bool, i: nat)
    requires i < |targets|
    ensures var trace := Trace(start, targets, query, passThrough);
            && |trace| == |targets|
            && trace[i].from == RedirectUrl(if i == 0 then start else targets[i - 1], query, passThrough)
            && trace[i].to == RedirectUrl(targets[i], query, passThrough)
  {
    hide RedirectUrl;
    TraceLength(start, targets[..|targets| - 1], query, passThrough);
    if i < |targets| - 1 {
      TraceEntries(start, targets[..|targets| - 1], query, passThrough, i);
    }
  }

  lemma {:induction false} TraceLength(start: string, targets: seq<string>, query: string, passThrough: bool)
    ensures |Trace(start, targets, query, passThrough)| == |targets|
  {
    if targets != [] { TraceLength(start, targets[..|targets| - 1], query, passThrough); }
  }

  lemma {:induction false} FirstEntry(start: string, targets: seq<string>, query: string, passThrough: bool)
    ensures var trace := Trace(start, targets, query, passThrough);
            && (trace == [] <==> targets == [])
            && (targets != [] ==> trace[0] == Step(RedirectUrl(start, query, passThrough),
                                                   RedirectUrl(targets[0], query, passThrough)))
  {
    if |targets| > 1 {
      FirstEntry(start, targets[..|targets| - 1], query, passThrough);
    }
  }

  /** A query string is passed on behind a question mark, unless it is empty or "0" or is not to be passed through. */
  lemma QueryPassedOn(path: string, query: string)
    ensures RedirectUrl(path, query, false) == path
    ensures RedirectUrl(path, "", true) == path && RedirectUrl(path, "0", true) == path
    ensures query != "" && query != "0" ==> RedirectUrl(path, query, true) == path + "?" + query
  {
  }

  lemma NothingTraced(redirects: map<string, string>, start: string, query: string, passThrough: bool)
    ensures Trace(start, [], query, passThrough) == [] && Traced(redirects, start, [])
  {
  }

  lemma TraceStep(redirects: map<string, string>, start: string, traced: seq<string>, to: string, query: string,
                  passThrough: bool)
    requires Traced(redirects, start, traced)
    requires Next(redirects, if traced == [] then start else traced[|traced| - 1]) == Some(to)
    ensures Traced(redirects, start, traced + [to]) && (traced + [to])[..|traced|] == traced
    ensures Trace(start, traced + [to], query, passThrough) ==
              Trace(start, traced, query, passThrough) +
              [Step(RedirectUrl(if traced == [] then start else traced[|traced| - 1], query, passThrough),
                    RedirectUrl(to, query, passThrough))]
  {
    assert (traced + [to])[..|traced|] == traced;
    assert Followed(redirects, start, |traced|) == Some(if traced == [] then start else traced[|traced| - 1]);
  }

  /** Different targets are values of different redirects. */
  lemma TargetsAreValues(redirects: map<string, string>, start: string, targets: seq<string>)
    requires Traced(redirects, start, targets) && Distinct(targets)
    ensures |targets| <= |redirects|
  {
    var keys := KeysOf(redirects, start, targets);
    KeysCount(redirects, targets, keys);
  }

  lemma KeysOf(redirects: map<string, string>, start: string, targets: seq<string>) returns (keys: seq<string>)
    requires Traced(redirects, start, targets)
    ensures |keys| == |targets| && forall i | 0 <= i < |keys| ::
               keys[i] in redirects && redirects[keys[i]] == targets[i]
  {
    keys := seq(|targets|, i requires 0 <= i < |targets| => WithoutSlashes(if i == 0 then start else targets[i - 1]));
    forall i | 0 <= i < |keys| ensures keys[i] in redirects && redirects[keys[i]] == targets[i] {
      assert Followed(redirects, start, i + 1) == Some(targets[i]);
      assert i > 0 ==> Followed(redirects, start, i) == Some(targets[i - 1]);
    }
  }

  lemma {:induction false} KeysCount(redirects: map<string, string>, targets: seq<string>, keys: seq<string>)
    requires Distinct(targets) && |keys| == |targets|
    requires forall i | 0 <= i < |keys| :: keys[i] in redirects && redirects[keys[i]] == targets[i]
    ensures |targets| <= |redirects|
  {
    if targets != [] {
      var last := keys[|keys| - 1];
      var fewer := redirects - {last};
      forall i | 0 <= i < |keys| - 1 ensures keys[i] in fewer && fewer[keys[i]] == targets[i] {
        assert targets[i] != targets[|targets| - 1];
      }
      KeysCount(fewer, targets[..|targets| - 1], keys[..|keys| - 1]);
      assert |fewer| == |redirects| - 1 by {
        assert fewer.Keys == redirects.Keys - {last};
      }
    }
  }

  lemma EndFound(redirects: map<string, string>, start: string, traced: seq<string>)
    requires Traced(redirects, start, traced)
    requires Next(redirects, if traced == [] then start else traced[|traced| - 1]).None?
    ensures !NeverEnds(redirects, start)
  {
    assert Followed(redirects, start, |traced|) == Some(if traced == [] then start else traced[|traced| - 1]);
    assert Followed(redirects, start, |traced| + 1).None?;
  }

  /** A path reached a second time is reached again and again. */
  lemma CircleFound(redirects: map<string, string>, start: string, traced: seq<string>, to: string)
    requires Traced(redirects, start, traced + [to]) && to in traced
    ensures NeverEnds(redirects, start)
  {
    var i :| 0 <= i < |traced| && traced[i] == to;
    assert Followed(redirects, start, i + 1) == Some((traced + [to])[i]);
    assert Followed(redirects, start, |traced| + 1) == Some((traced + [to])[|traced|]);
    forall n: nat ensures Followed(redirects, start, n).Some? {
      AroundTheCircle(redirects, start, i + 1, |traced| + 1, n);
    }
  }

  lemma {:induction false} AroundTheCircle(redirects: map<string, string>, start: string, i: nat, j: nat, n: nat)
    requires i < j && Followed(redirects, start, i).Some?
    requires Followed(redirects, start, i) == Followed(redirects, start, j)
    ensures Followed(redirects, start, n).Some?
    decreases n
  {
    if n <= j {
      FollowedPrefix(redirects, start, n, j);
    } else {
      AroundTheCircle(redirects, start, i, j, n - (j - i));
      SameFromThere(redirects, start, i, j, n - j);
    }
  }

  lemma {:induction false} FollowedPrefix(redirects: map<string, string>, start: string, n: nat, j: nat)
    requires n <= j && Followed(redirects, start, j).Some?
    ensures Followed(redirects, start, n).Some?
    decreases j
  {
    if n < j { FollowedPrefix(redirects, start, n, j - 1); }
  }

  lemma {:induction false} SameFromThere(redirects: map<string, string>, start: string, i: nat, j: nat, k: nat)
    requires Followed(redirects, start, i) == Followed(redirects, start, j)
    ensures Followed(redirects, start, i + k) == Followed(redirects, start, j + k)
  {
    if k > 0 {
      SameFromThere(redirects, start, i, j, k - 1);
      assert i + k - 1 == i + (k - 1) && j + k - 1 == j + (k - 1);
    }
  }

  /** The trace is a chain from the path asked for: every redirect starts where the one before led. */
  lemma {:induction false} TraceIsChain(start: string, targets: seq<string>, query: string, passThrough: bool)
    ensures var trace := Trace(start, targets, query, passThrough);
            && |trace| == |targets|
            && (trace != [] ==> trace[0].from == RedirectUrl(start, query, passThrough))
            && forall i | 0 < i < |trace| :: trace[i].from == trace[i - 1].to
  {
    if targets != [] {
      var before := targets[..|targets| - 1];
      TraceIsChain(start, before, query, passThrough);
      TraceLast(start, before, query, passThrough);
      assert |targets| > 1 ==> before[|before| - 1] == targets[|targets| - 2];
    }
  }

  lemma TraceLast(start: string, targets: seq<string>, query: string, passThrough: bool)
    ensures targets != [] ==>
              var trace := Trace(start, targets, query, passThrough);
              trace != [] && trace[|trace| - 1].to == RedirectUrl(targets[|targets| - 1], query, passThrough)
  {
  }
}
