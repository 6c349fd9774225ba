/** Level-by-level execution of a tree of subrequests. */
module SubrequestsManager {
  import opened JsonPathReplacer
  import opened SubrequestExpansion
  import opened ExpansionIds

  /** The kernel: what it answers may depend on how many subrequests it has handled before. */
  type Kernel = (nat, Subrequest) -> string

  datatype Run = Responses(responses: seq<Response>) | Failed(error: Error) | Endless

  /** Each subrequest is handled in turn; the response is labelled with the id of its subrequest. */
  function Handle(batch: seq<Subrequest>, kernel: Kernel, handled: nat): (r: seq<Response>)
    ensures |r| == |batch|
    ensures forall i | 0 <= i < |batch| :: r[i] == Response(batch[i].requestId, kernel(handled + i, batch[i]))
  {
    if batch == [] then []
    else [Response(batch[0].requestId, kernel(handled, batch[0]))] + Handle(batch[1..], kernel, handled + 1)
  }

  /** The recursion of the manager: one level, then the rest with the responses collected so far. */
  function ProcessBatchesSequence(tree: seq<seq<Subrequest>>, sequence: nat, responses: seq<Response>,
                                  query: JsonQuery, kernel: Kernel, depth: nat): Run
    requires sequence < |tree|
    decreases |tree| - sequence
  {
    match ReplaceBatch(tree[sequence], Replacer(responses, query), depth)
    case Rejected(e) => Failed(e)
    case Unfinished => Endless
    case Done(batch) =>
      var all := responses + Handle(batch, kernel, |responses|);
      if sequence + 1 == |tree| then Responses(all)
      else ProcessBatchesSequence(tree, sequence + 1, all, query, kernel, depth)
  }

  /** Independently: a run over some levels is a run over all but the last one, extended by that level. */
  function RunLevels(levels: seq<seq<Subrequest>>, query: JsonQuery, kernel: Kernel, depth: nat): Run {
    if levels == [] then Responses([])
    else
      var n := |levels| - 1;
      var before := RunLevels(levels[..n], query, kernel, depth);
      if !before.Responses? then before
      else
        match ReplaceBatch(levels[n], Replacer(before.responses, query), depth)
        case Rejected(e) => Failed(e)
        case Unfinished => Endless
        case Done(batch) => Responses(before.responses + Handle(batch, kernel, |before.responses|))
  }

  lemma {:induction false} FailureIsFinal(levels: seq<seq<Subrequest>>, n: nat, query: JsonQuery, kernel: Kernel,
                                          depth: nat)
    requires n <= |levels| && !RunLevels(levels[..n], query, kernel, depth).Responses?
    ensures RunLevels(levels, query, kernel, depth) == RunLevels(levels[..n], query, kernel, depth)
    decreases |levels| - n
  {
    if n < |levels| {
      assert levels[..n + 1][..n] == levels[..n];
      FailureIsFinal(levels, n + 1, query, kernel, depth);
    } else {
      assert levels[..n] == levels;
    }
  }

  lemma {:induction false} AccumulatorMeetsLevels(tree: seq<seq<Subrequest>>, sequence: nat, responses: seq<Response>,
                                                  query: JsonQuery, kernel: Kernel, depth: nat)
    requires sequence < |tree| && RunLevels(tree[..sequence], query, kernel, depth) == Responses(responses)
    ensures ProcessBatchesSequence(tree, sequence, responses, query, kernel, depth) ==
               RunLevels(tree, query, kernel, depth)
    decreases |tree| - sequence
  {
    var next := tree[..sequence + 1];
    assert next[..sequence] == tree[..sequence] && next[sequence] == tree[sequence];
    var outcome := ReplaceBatch(tree[sequence], Replacer(responses, query), depth);
    if !outcome.Done? {
      FailureIsFinal(tree, sequence + 1, query, kernel, depth);
    } else if sequence + 1 == |tree| {
      assert next == tree;
    } else {
      var all := responses + Handle(outcome.requests, kernel, |responses|);
      AccumulatorMeetsLevels(tree, sequence + 1, all, query, kernel, depth);
    }
  }

  /** The accumulating recursion computes the level-by-level run. */
  lemma RequestRunsLevels(tree: seq<seq<Subrequest>>, query: JsonQuery, kernel: Kernel, depth: nat)
    requires tree != []
    ensures ProcessBatchesSequence(tree, 0, [], query, kernel, depth) == RunLevels(tree, query, kernel, depth)
  {
    assert tree[..0] == [];
    AccumulatorMeetsLevels(tree, 0, [], query, kernel, depth);
  }

  /** Responses of earlier levels stay in place: whatever the later levels are, they only add to the end. */
  lemma {:induction false} LaterLevelsOnlyAppend(levels: seq<seq<Subrequest>>, k: nat, query: JsonQuery, kernel: Kernel,
                                                 depth: nat)
    requires k <= |levels| && RunLevels(levels, query, kernel, depth).Responses?
    ensures RunLevels(levels[..k], query, kernel, depth).Responses?
    ensures RunLevels(levels[..k], query, kernel, depth).responses <= RunLevels(levels, query, kernel, depth).responses
    decreases |levels| - k
  {
    if k == |levels| {
      assert levels[..k] == levels;
    } else {
      LaterLevelsOnlyAppend(levels, k + 1, query, kernel, depth);
      assert levels[..k + 1][..k] == levels[..k];
    }
  }

  /**
   * Level `k` is expanded against the responses of the levels below it and nothing else, everything it
   * sends to the kernel is free of tokens, and its responses follow those of the levels below in order.
   */
  lemma LevelReadsEarlierLevels(levels: seq<seq<Subrequest>>, k: nat, query: JsonQuery, kernel: Kernel, depth: nat)
    requires k < |levels| && RunLevels(levels, query, kernel, depth).Responses?
    ensures var before := RunLevels(levels[..k], query, kernel, depth);
            && before.Responses?
            && var outcome := ReplaceBatch(levels[k], Replacer(before.responses, query), depth);
               && outcome.Done?
               && (forall sub | sub in outcome.requests :: Resolved(sub))
               && before.responses + Handle(outcome.requests, kernel, |before.responses|)
                    <= RunLevels(levels, query, kernel, depth).responses
  {
    LaterLevelsOnlyAppend(levels, k, query, kernel, depth);
    LaterLevelsOnlyAppend(levels, k + 1, query, kernel, depth);
    assert levels[..k + 1][..k] == levels[..k] && levels[..k + 1][k] == levels[k];
    ExpansionIsResolved(levels[k], RunLevels(levels[..k], query, kernel, depth).responses, query, depth);
  }

  /** Whatever responses the levels before a level leave, no value found in them holds a brace. */
  ghost predicate PlainAnswers(levels: seq<seq<Subrequest>>, query: JsonQuery, kernel: Kernel, depth: nat) {
    forall k | 0 <= k < |levels| :: PlainBefore(levels[..k], query, kernel, depth)
  }

  ghost predicate PlainBefore(levels: seq<seq<Subrequest>>, query: JsonQuery, kernel: Kernel, depth: nat) {
    var before := RunLevels(levels, query, kernel, depth);
    before.Responses? ==> BraceFreeValues(before.responses, query)
  }

  ghost predicate WeighsAtMost(levels: seq<seq<Subrequest>>, depth: nat) {
    forall level, sub | level in levels && sub in level :: Weight(sub) <= depth
  }

  /**
   * If the values found are free of braces, a run over all levels ends: with responses, or at the first level that
   * is rejected. The depth of the recursion is nowhere more than the number of braces in a URI and body.
   */
  lemma {:induction false} RunEnds(levels: seq<seq<Subrequest>>, query: JsonQuery, kernel: Kernel, depth: nat)
    requires PlainAnswers(levels, query, kernel, depth) && WeighsAtMost(levels, depth)
    ensures !RunLevels(levels, query, kernel, depth).Endless?
  {
    if levels != [] {
      var n := |levels| - 1;
      forall k | 0 <= k < n ensures PlainBefore(levels[..n][..k], query, kernel, depth) {
        assert levels[..n][..k] == levels[..k];
      }
      RunEnds(levels[..n], query, kernel, depth);
      var before := RunLevels(levels[..n], query, kernel, depth);
      if before.Responses? {
        assert PlainBefore(levels[..n], query, kernel, depth) && levels[n] in levels;
        ExpansionTerminates(levels[n], before.responses, query, depth);
      }
    }
  }

  // --- The ids of all responses of a run ---

  function Requests(levels: seq<seq<Subrequest>>): seq<Subrequest> {
    if levels == [] then [] else Requests(levels[..|levels| - 1]) + levels[|levels| - 1]
  }

  ghost predicate DistinctContentIds(responses: seq<Response>) {
    forall i, j | 0 <= i < j < |responses| :: responses[i].contentId != responses[j].contentId
  }

  /** Every response names one of the requests, by its id up to the first '#'. */
  ghost predicate NamesRequests(responses: seq<Response>, requests: seq<Subrequest>) {
    forall r | r in responses :: exists sub :: sub in requests && CutAtHash(r.contentId) == sub.requestId
  }

  /**
   * If the ids of all requests, over all levels, differ and are free of '#', all responses of a run have different ids,
   * and each names the request that it came from.
   */
  lemma {:induction false} RunKeepsIdsDistinct(levels: seq<seq<Subrequest>>, query: JsonQuery, kernel: Kernel,
                                               depth: nat)
    requires DistinctRequestIds(Requests(levels)) && forall sub | sub in Requests(levels) :: '#' !in sub.requestId
    requires RunLevels(levels, query, kernel, depth).Responses?
    ensures DistinctContentIds(RunLevels(levels, query, kernel, depth).responses)
    ensures NamesRequests(RunLevels(levels, query, kernel, depth).responses, Requests(levels))
  {
    if levels != [] {
      var n := |levels| - 1;
      var earlier, level := Requests(levels[..n]), levels[n];
      RequestsApart(earlier, level);
      RunKeepsIdsDistinct(levels[..n], query, kernel, depth);
      var before := RunLevels(levels[..n], query, kernel, depth).responses;
      var outcome := ReplaceBatch(level, Replacer(before, query), depth);
      ExpansionNamesRequests(level, before, query, depth);
      var answers := Handle(outcome.requests, kernel, |before|);
      hide *;
      AnswersNameLevel(outcome.requests, level, kernel, |before|);
      JoinedIds(before, answers, earlier, level);
    }
  }

  lemma RequestsApart(earlier: seq<Subrequest>, level: seq<Subrequest>)
    requires DistinctRequestIds(earlier + level) && forall sub | sub in earlier + level :: '#' !in sub.requestId
    ensures DistinctRequestIds(earlier) && DistinctRequestIds(level)
    ensures (forall sub | sub in earlier :: '#' !in sub.requestId) && forall sub | sub in level :: '#' !in sub.requestId
    ensures forall a, b | a in earlier && b in level :: a.requestId != b.requestId
  {
    var all := earlier + level;
    forall i, j | 0 <= i < j < |earlier| ensures earlier[i].requestId != earlier[j].requestId {
      assert all[i] == earlier[i] && all[j] == earlier[j];
    }
    forall i, j | 0 <= i < j < |level| ensures level[i].requestId != level[j].requestId {
      assert all[|earlier| + i] == level[i] && all[|earlier| + j] == level[j];
    }
    forall i, j | 0 <= i < |earlier| && 0 <= j < |level| ensures earlier[i].requestId != level[j].requestId {
      assert all[i] == earlier[i] && all[|earlier| + j] == level[j];
    }
  }

  lemma AnswersNameLevel(requests: seq<Subrequest>, level: seq<Subrequest>, kernel: Kernel, handled: nat)
    requires DistinctRequestIds(requests)
    requires forall r | r in requests :: exists i :: 0 <= i < |level| && CutAtHash(r.requestId) == level[i].requestId
    ensures DistinctContentIds(Handle(requests, kernel, handled))
    ensures NamesRequests(Handle(requests, kernel, handled), level)
  {
    var answers := Handle(requests, kernel, handled);
    forall r | r in answers ensures exists sub :: sub in level && CutAtHash(r.contentId) == sub.requestId {
      var k :| 0 <= k < |answers| && answers[k] == r;
      assert requests[k] in requests;
      var i :| 0 <= i < |level| && CutAtHash(requests[k].requestId) == level[i].requestId;
      assert level[i] in level;
    }
  }

  lemma JoinedIds(before: seq<Response>, answers: seq<Response>, earlier: seq<Subrequest>, level: seq<Subrequest>)
    requires DistinctContentIds(before) && NamesRequests(before, earlier)
    requires DistinctContentIds(answers) && NamesRequests(answers, level)
    requires forall a, b | a in earlier && b in level :: a.requestId != b.requestId
    ensures DistinctContentIds(before + answers) && NamesRequests(before + answers, earlier + level)
  {
    forall i, j | 0 <= i < |before| && 0 <= j < |answers| ensures before[i].contentId != answers[j].contentId {
      assert before[i] in before && answers[j] in answers;
      var a :| a in earlier && CutAtHash(before[i].contentId) == a.requestId;
      var b :| b in level && CutAtHash(answers[j].contentId) == b.requestId;
    }
    forall r | r in before + answers
      ensures exists sub :: sub in earlier + level && CutAtHash(r.contentId) == sub.requestId
    {
      if r in before {
        var sub :| sub in earlier && CutAtHash(r.contentId) == sub.requestId;
        assert sub in earlier + level;
      } else {
        var sub :| sub in level && CutAtHash(r.contentId) == sub.requestId;
        assert sub in earlier + level;
      }
    }
  }
}
