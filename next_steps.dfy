/**
  `findNextSteps` of the wheel application: for a selected core, branch and
  expression, the outer group of the next-steps wheel whose tokens best match
  the selection, and that group's steps.
*/
module NextSteps {
  import opened Optional
  import opened Text
  import opened Schema

  /** `{ groupLabel, steps }`; `groupLabel` is `None` for `null`. */
  datatype Guidance<S> = Guidance(groupLabel: Option<string>, steps: seq<S>)

  /** `tree.find((c) => c.label === coreLabel)`: the first core whose label is exactly `coreLabel`. */
  function FindCore<S>(tree: seq<GuidanceCore<S>>, coreLabel: string): (r: Option<nat>)
    ensures r.None? <==> forall i | 0 <= i < |tree| :: tree[i].name != coreLabel
    ensures r.Some? ==> r.value < |tree| && tree[r.value].name == coreLabel
    ensures r.Some? ==> forall i | 0 <= i < r.value :: tree[i].name != coreLabel
  {
    if tree == [] then None
    else if tree[0].name == coreLabel then Some(0)
    else
      match FindCore(tree[1..], coreLabel)
      case None => None
      case Some(i) => Some(i + 1)
  }

  /**
    The tokens a group is matched by: its normalised `match_words` when it
    has any, otherwise the normalised `/`-separated parts of its label.
  */
  function Candidates<S>(g: OuterGroup<S>): seq<string>
  {
    if |g.matchWords| > 0 then NormalizeAll(g.matchWords) else NormalizeAll(Split(g.name, '/'))
  }

  /**
    What one token contributes to a group's score: 3 when the branch contains
    it, else 2 when it is the expression, else 1 when it and the expression
    contain one another, else 0; an empty token contributes nothing.
  */
  function TokenScore(c: string, branch: string, word: string): (n: int)
    ensures 0 <= n <= 3
    ensures n == 3 <==> c != [] && Contains(branch, c)
    ensures n == 2 <==> c != [] && !Contains(branch, c) && word == c
    ensures n == 0 <==> c == [] || (!Contains(branch, c) && !Contains(word, c) && !Contains(c, word))
  {
    ContainsBasics(word, c);
    if c == [] then 0
    else if Contains(branch, c) then 3
    else if word == c then 2
    else if Contains(word, c) || Contains(c, word) then 1
    else 0
  }

  function Max(a: int, b: int): int
  {
    if a < b then b else a
  }

  /** A group's score: the running maximum of its tokens' contributions, from 0. */
  function GroupScore(tokens: seq<string>, branch: string, word: string): (n: int)
    ensures 0 <= n <= 3
  {
    if tokens == [] then 0
    else Max(GroupScore(tokens[..|tokens| - 1], branch, word), TokenScore(tokens[|tokens| - 1], branch, word))
  }

  /** A group's score is the best contribution among its tokens, and 0 when no token contributes. */
  lemma {:induction false} GroupScoreIsMax(tokens: seq<string>, branch: string, word: string)
    ensures forall k | 0 <= k < |tokens| :: TokenScore(tokens[k], branch, word) <= GroupScore(tokens, branch, word)
    ensures GroupScore(tokens, branch, word) == 0
      || exists k | 0 <= k < |tokens| :: TokenScore(tokens[k], branch, word) == GroupScore(tokens, branch, word)
  {
    if tokens != [] {
      var pre := tokens[..|tokens| - 1];
      GroupScoreIsMax(pre, branch, word);
      assert forall k | 0 <= k < |pre| :: tokens[k] == pre[k];
    }
  }

  function Score<S>(g: OuterGroup<S>, branch: string, word: string): int
  {
    GroupScore(Candidates(g), branch, word)
  }

  /** The score of every group, in tree order. */
  function Scores<S>(groups: seq<OuterGroup<S>>, branch: string, word: string): seq<int>
  {
    seq(|groups|, j requires 0 <= j < |groups| => Score(groups[j], branch, word))
  }

  /**
    Position `k` is the one the scan keeps: it scores above 0, nothing scores
    more, and everything before it scores strictly less.
  */
  ghost predicate FirstBest(scores: seq<int>, k: int)
  {
    && 0 <= k < |scores|
    && scores[k] > 0
    && (forall j | 0 <= j < |scores| :: scores[j] <= scores[k])
    && (forall j | 0 <= j < k :: scores[j] < scores[k])
  }

  /** At most one position is kept. */
  lemma FirstBestUnique(scores: seq<int>, k: int, k': int)
    requires FirstBest(scores, k) && FirstBest(scores, k')
    ensures k == k'
  {
  }

  /**
    The position kept by a scan that starts from score 0 and replaces the
    best so far only on a strictly greater score.
  */
  function BestIndex(scores: seq<int>): (r: Option<nat>)
    ensures r.None? <==> forall j | 0 <= j < |scores| :: scores[j] <= 0
    ensures r.Some? ==> FirstBest(scores, r.value)
  {
    if scores == [] then None
    else
      var n := |scores| - 1;
      var prev := BestIndex(scores[..n]);
      var best := match prev case None => 0 case Some(k) => scores[k];
      if scores[n] > best then Some(n) else prev
  }

  /** One more step of the scan. */
  lemma BestIndexStep(scores: seq<int>, i: nat)
    requires i < |scores|
    ensures BestIndex(scores[..i + 1]) ==
      var prev := BestIndex(scores[..i]);
      var best := match prev case None => 0 case Some(k) => scores[k];
      if scores[i] > best then Some(i) else prev
  {
    assert scores[..i + 1][..i] == scores[..i];
  }

  /** `{ groupLabel: null, steps: [] }`. */
  function NoGuidance<S>(): Guidance<S>
  {
    Guidance(None, [])
  }

  /**
    The guidance of the group a scan over `groups` keeps: none when every
    group scores 0, otherwise the label and steps of the first group with the
    greatest score.
  */
  function Winner<S>(groups: seq<OuterGroup<S>>, branch: string, word: string): (r: Guidance<S>)
    ensures r.groupLabel.None? ==> r.steps == []
    ensures r.groupLabel.None? <==> forall j | 0 <= j < |groups| :: Score(groups[j], branch, word) == 0
    ensures r.groupLabel.Some? ==>
      exists k :: (FirstBest(Scores(groups, branch, word), k) && r == Guidance(Some(groups[k].name), groups[k].steps))
  {
    var scores := Scores(groups, branch, word);
    assert |scores| == |groups|;
    assert forall j | 0 <= j < |groups| :: scores[j] == Score(groups[j], branch, word) >= 0;
    Pick(groups, BestIndex(scores))
  }

  /** The guidance of group `k`, or none. */
  function Pick<S>(groups: seq<OuterGroup<S>>, k: Option<nat>): Guidance<S>
    requires k.Some? ==> k.value < |groups|
  {
    match k
    case None => NoGuidance()
    case Some(i) => Guidance(Some(groups[i].name), groups[i].steps)
  }

  /** What `findNextSteps(schema, coreLabel, branchLabel, expressionLabel)` returns. */
  function NextStepsFor<S>(tree: seq<GuidanceCore<S>>, coreLabel: string, branchLabel: string, expressionLabel: string): Guidance<S>
  {
    match FindCore(tree, coreLabel)
    case None => NoGuidance()
    case Some(c) => Winner(tree[c].outerEmotions, Normalize(branchLabel), Normalize(expressionLabel))
  }

  /**
    What `findNextSteps` promises: no group label and no steps exactly when no
    core has the label or every outer group of the first such core scores 0;
    otherwise the label and steps of that core's first group with the highest
    score.
  */
  lemma NextStepsForChoice<S>(tree: seq<GuidanceCore<S>>, coreLabel: string, branchLabel: string, expressionLabel: string)
    ensures var r := NextStepsFor(tree, coreLabel, branchLabel, expressionLabel);
      r.groupLabel.None? ==> r.steps == []
    ensures var r := NextStepsFor(tree, coreLabel, branchLabel, expressionLabel);
      r.groupLabel.None? <==>
        || (forall i | 0 <= i < |tree| :: tree[i].name != coreLabel)
        || (exists c | FirstCore(tree, coreLabel, c) ::
              forall j | 0 <= j < |tree[c].outerEmotions| ::
                Score(tree[c].outerEmotions[j], Normalize(branchLabel), Normalize(expressionLabel)) == 0)
    ensures var r := NextStepsFor(tree, coreLabel, branchLabel, expressionLabel);
      r.groupLabel.Some? ==>
        exists c, k ::
          && FirstCore(tree, coreLabel, c)
          && FirstBest(Scores(tree[c].outerEmotions, Normalize(branchLabel), Normalize(expressionLabel)), k)
          && r == Guidance(Some(tree[c].outerEmotions[k].name), tree[c].outerEmotions[k].steps)
  {
    var found := FindCore(tree, coreLabel);
    if found.Some? {
      var c := found.value;
      assert FirstCore(tree, coreLabel, c);
      forall c' | FirstCore(tree, coreLabel, c')
        ensures c' == c
      {
      }
    }
  }

  /** `c` is the first core labelled `coreLabel`. */
  ghost predicate FirstCore<S>(tree: seq<GuidanceCore<S>>, coreLabel: string, c: int)
  {
    0 <= c < |tree| && tree[c].name == coreLabel && forall i | 0 <= i < c :: tree[i].name != coreLabel
  }

  /** The inner loop of `findNextSteps`: the score of one group's tokens. */
  method ScoreTokens(candidates: seq<string>, branch: string, word: string) returns (score: int)
    ensures score == GroupScore(candidates, branch, word)
  {
    score := 0;
    for i := 0 to |candidates|
      invariant score == GroupScore(candidates[..i], branch, word)
    {
      assert candidates[..i + 1][..i] == candidates[..i];
      var c := candidates[i];
      if c == [] {
        continue;
      }
      if Contains(branch, c) {
        score := Max(score, 3);
      }
      if word == c {
        score := Max(score, 2);
      }
      if Contains(word, c) || Contains(c, word) {
        score := Max(score, 1);
      }
    }
    assert candidates[..|candidates|] == candidates;
  }

  /**
    The outer loop of `findNextSteps`: keep the first group with the strictly
    greatest score, starting from score 0.
  */
  method KeepBest<S>(groups: seq<OuterGroup<S>>, branch: string, word: string) returns (result: Guidance<S>)
    ensures result == Pick(groups, BestIndex(Scores(groups, branch, word)))
  {
    ghost var scores := Scores(groups, branch, word);
    ghost var kept: Option<nat> := None;
    var bestLabel: Option<string> := None;
    var bestSteps: seq<S> := [];
    var bestScore := 0;
    for i := 0 to |groups|
      invariant kept == BestIndex(scores[..i])
      invariant kept.None? ==> bestLabel == None && bestSteps == [] && bestScore == 0
      invariant kept.Some? ==>
        && kept.value < i && bestLabel == Some(groups[kept.value].name)
        && bestSteps == groups[kept.value].steps && bestScore == scores[kept.value]
    {
      BestIndexStep(scores, i);
      var group := groups[i];
      var score := ScoreTokens(Candidates(group), branch, word);
      if score > bestScore {
        bestLabel, bestSteps, bestScore := Some(group.name), group.steps, score;
        kept := Some(i);
      }
    }
    assert scores[..|groups|] == scores;

    if bestScore == 0 {
      return NoGuidance();
    }
    return Guidance(bestLabel, bestSteps);
  }

  /** `findNextSteps`: find the core by its exact label, then scan its outer groups. */
  method FindNextSteps<S>(tree: seq<GuidanceCore<S>>, coreLabel: string, branchLabel: string, expressionLabel: string)
    returns (result: Guidance<S>)
    ensures result == NextStepsFor(tree, coreLabel, branchLabel, expressionLabel)
  {
    var coreIndex := FindCore(tree, coreLabel);
    if coreIndex.None? {
      return NoGuidance();
    }
    var groups := tree[coreIndex.value].outerEmotions;
    var branch := Normalize(branchLabel);
    var word := Normalize(expressionLabel);
    result := KeepBest(groups, branch, word);
  }
}
