/**
  `getValidationForSelection` of the wheel application: the "Christian
  Validation" text of the validation-table row that best matches the
  selected expression and branch.
*/
module Validation {
  import opened Optional
  import opened Text

  /** A row of the validation table, column name to cell text, as the CSV reader builds it. */
  type Row = map<string, string>

  /** `r[name]` read as a string: a column the row does not have reads as "". */
  function Field(r: Row, name: string): string
  {
    if name in r then r[name] else ""
  }

  /**
    The selection: the labels of the picked branch and expression. A missing
    label and an empty one behave alike in the source (both are falsy and
    both normalise to ""), so a missing label is "".
  */
  datatype Selection = Selection(branchLabel: string, exprLabel: string)

  /** `validationRows.filter((r) => normalizeKey(r["Emotion"]) === word)`. */
  function Matching(rows: seq<Row>, word: string): (m: seq<Row>)
    ensures |m| <= |rows|
    ensures forall r | r in m :: r in rows && Normalize(Field(r, "Emotion")) == word
    ensures forall r | r in rows && Normalize(Field(r, "Emotion")) == word :: r in m
  {
    if rows == [] then []
    else
      var rest := Matching(rows[1..], word);
      assert forall r | r in rows[1..] :: r in rows;
      if Normalize(Field(rows[0], "Emotion")) == word then [rows[0]] + rest else rest
  }

  /** The filter of one row keeps it exactly when its normalised Emotion is the word. */
  lemma MatchingSingle(r: Row, word: string)
    ensures Matching([r], word) == if Normalize(Field(r, "Emotion")) == word then [r] else []
  {
    assert [r][1..] == [];
  }

  /**
    The filter works row by row: filtering two tables one after the other is
    filtering them together, so the matches keep table order and duplicates.
  */
  lemma {:induction false} MatchingAppend(a: seq<Row>, b: seq<Row>, word: string)
    ensures Matching(a + b, word) == Matching(a, word) + Matching(b, word)
  {
    if a == [] {
      assert a + b == b;
    } else {
      assert (a + b)[0] == a[0];
      assert (a + b)[1..] == a[1..] + b;
      MatchingAppend(a[1..], b, word);
    }
  }

  /** Both strings are non-empty and one contains the other: the test behind every bonus. */
  predicate Overlap(a: string, b: string)
  {
    a != [] && b != [] && (Contains(a, b) || Contains(b, a))
  }

  /** The number of branch tokens that earn the Subtype a point. */
  function TokenBonus(tokens: seq<string>, subtype: string): (n: nat)
    ensures n <= |tokens|
  {
    if tokens == [] then 0
    else TokenBonus(tokens[..|tokens| - 1], subtype) + (if Overlap(tokens[|tokens| - 1], subtype) then 1 else 0)
  }

  /** The bonus is 0 exactly when no token overlaps, and `|tokens|` exactly when every token does. */
  lemma {:induction false} TokenBonusExtremes(tokens: seq<string>, subtype: string)
    ensures TokenBonus(tokens, subtype) == 0 <==> forall k | 0 <= k < |tokens| :: !Overlap(tokens[k], subtype)
    ensures TokenBonus(tokens, subtype) == |tokens| <==> forall k | 0 <= k < |tokens| :: Overlap(tokens[k], subtype)
  {
    if tokens != [] {
      var pre := tokens[..|tokens| - 1];
      TokenBonusExtremes(pre, subtype);
      assert forall k | 0 <= k < |pre| :: pre[k] == tokens[k];
    }
  }

  lemma TokenBonusStep(tokens: seq<string>, i: nat, subtype: string)
    requires i < |tokens|
    ensures TokenBonus(tokens[..i + 1], subtype) == TokenBonus(tokens[..i], subtype) + (if Overlap(tokens[i], subtype) then 1 else 0)
  {
    assert tokens[..i + 1][..i] == tokens[..i];
  }

  /** The `/`-separated tokens of the normalised branch, each normalised again. */
  function BranchTokens(branch: string): seq<string>
  {
    NormalizeAll(Split(branch, '/'))
  }

  /** 3 when Subtype and branch are both non-empty and one contains the other. */
  function ContainmentBonus(subtype: string, branch: string): (n: nat)
    ensures n == 0 || n == 3
  {
    if Overlap(subtype, branch) then 3 else 0
  }

  /** The score of a matching row with normalised Subtype `subtype` against the normalised branch. */
  function RowScore(subtype: string, branch: string): nat
  {
    ContainmentBonus(subtype, branch) + TokenBonus(BranchTokens(branch), subtype)
  }

  /** A row without a Subtype scores 0; any score is at most 3 plus the number of branch tokens. */
  lemma RowScoreBounds(subtype: string, branch: string)
    ensures RowScore(subtype, branch) <= 3 + |Split(branch, '/')|
    ensures subtype == [] ==> RowScore(subtype, branch) == 0
  {
    TokenBonusExtremes(BranchTokens(branch), subtype);
  }

  /** A matching row with its score: the `{ r, score }` records of the source. */
  datatype Scored = Scored(row: Row, score: int)

  /** One matching row with the score of its normalised Subtype against the branch. */
  function ScoreOf(r: Row, branch: string): Scored
  {
    Scored(r, RowScore(Normalize(Field(r, "Subtype")), branch))
  }

  /** Score every matching row, in table order. */
  function ScoreAll(matches: seq<Row>, branch: string): (s: seq<Scored>)
    ensures |s| == |matches|
  {
    if matches == [] then []
    else
      var n := |matches| - 1;
      ScoreAll(matches[..n], branch) + [ScoreOf(matches[n], branch)]
  }

  lemma {:induction false} ScoreAllAt(matches: seq<Row>, branch: string, k: nat)
    requires k < |matches|
    ensures ScoreAll(matches, branch)[k] == ScoreOf(matches[k], branch)
  {
    var n := |matches| - 1;
    var pre := matches[..n];
    var s := ScoreAll(pre, branch);
    var last := ScoreOf(matches[n], branch);
    assert ScoreAll(matches, branch) == s + [last];
    if k < n {
      ScoreAllAt(pre, branch, k);
      assert pre[k] == matches[k];
      assert (s + [last])[k] == s[k];
    } else {
      assert (s + [last])[k] == last;
    }
  }

  /**
    Insert `x` in front of the first element that does not score more than
    it: the place a stable descending sort gives an element that came first.
  */
  function Insert(x: Scored, sorted: seq<Scored>): (r: seq<Scored>)
    ensures |r| == |sorted| + 1
  {
    if sorted == [] || sorted[0].score <= x.score then [x] + sorted
    else [sorted[0]] + Insert(x, sorted[1..])
  }

  /**
    `scored.sort((a, b) => b.score - a.score)`: descending by score, keeping
    table order among equal scores (`Array.prototype.sort` is stable).
  */
  function SortByScore(s: seq<Scored>): (r: seq<Scored>)
    ensures |r| == |s|
  {
    if s == [] then [] else Insert(s[0], SortByScore(s[1..]))
  }

  lemma {:induction false} InsertPermutation(x: Scored, sorted: seq<Scored>)
    ensures multiset(Insert(x, sorted)) == multiset{x} + multiset(sorted)
  {
    if sorted != [] && sorted[0].score > x.score {
      InsertPermutation(x, sorted[1..]);
      assert sorted == [sorted[0]] + sorted[1..];
    }
  }

  /** Sorting neither loses nor adds a row. */
  lemma {:induction false} SortPermutation(s: seq<Scored>)
    ensures multiset(SortByScore(s)) == multiset(s)
  {
    if s != [] {
      SortPermutation(s[1..]);
      InsertPermutation(s[0], SortByScore(s[1..]));
      assert s == [s[0]] + s[1..];
    }
  }

  ghost predicate Descending(s: seq<Scored>)
  {
    forall i, j | 0 <= i < j < |s| :: s[i].score >= s[j].score
  }

  lemma {:induction false} InsertMembers(x: Scored, sorted: seq<Scored>)
    ensures forall y | y in Insert(x, sorted) :: y == x || y in sorted
  {
    if sorted != [] && sorted[0].score > x.score {
      InsertMembers(x, sorted[1..]);
    }
  }

  lemma InsertHead(x: Scored, sorted: seq<Scored>)
    ensures Insert(x, sorted)[0] == (if sorted == [] || sorted[0].score <= x.score then x else sorted[0])
  {
  }

  /** Into a descending list, a record goes first exactly when nothing there scores more than it. */
  lemma InsertFirst(x: Scored, sorted: seq<Scored>)
    requires Descending(sorted)
    ensures Insert(x, sorted)[0] == x <==> forall y | y in sorted :: y.score <= x.score
  {
    InsertHead(x, sorted);
    if sorted != [] && sorted[0].score <= x.score {
      forall y | y in sorted
        ensures y.score <= x.score
      {
        var j :| 0 <= j < |sorted| && sorted[j] == y;
        assert j == 0 || sorted[0].score >= sorted[j].score;
      }
    }
  }

  lemma {:induction false} InsertDescending(x: Scored, sorted: seq<Scored>)
    requires Descending(sorted)
    ensures Descending(Insert(x, sorted))
  {
    if sorted != [] && sorted[0].score > x.score {
      var rest := sorted[1..];
      InsertDescending(x, rest);
      InsertMembers(x, rest);
      var r := Insert(x, rest);
      assert forall y | y in rest :: y.score <= sorted[0].score;
      assert forall j | 0 <= j < |r| :: r[j].score <= sorted[0].score;
      assert Insert(x, sorted) == [sorted[0]] + r;
    }
  }

  /** The sorted rows are in descending order of score. */
  lemma {:induction false} SortDescending(s: seq<Scored>)
    ensures Descending(SortByScore(s))
  {
    if s != [] {
      SortDescending(s[1..]);
      InsertDescending(s[0], SortByScore(s[1..]));
    }
  }

  /** The rows of `s` with score `v`, in order. */
  function WithScore(s: seq<Scored>, v: int): seq<Scored>
  {
    if s == [] then [] else (if s[0].score == v then [s[0]] else []) + WithScore(s[1..], v)
  }

  lemma {:induction false} InsertStable(x: Scored, sorted: seq<Scored>, v: int)
    ensures WithScore(Insert(x, sorted), v) == (if x.score == v then [x] else []) + WithScore(sorted, v)
  {
    if sorted != [] && sorted[0].score > x.score {
      InsertStable(x, sorted[1..], v);
    }
  }

  /** Stability: for every score, the rows with that score keep their table order. */
  lemma {:induction false} SortStable(s: seq<Scored>, v: int)
    ensures WithScore(SortByScore(s), v) == WithScore(s, v)
  {
    if s != [] {
      SortStable(s[1..], v);
      InsertStable(s[0], SortByScore(s[1..]), v);
    }
  }

  /** Position `k` holds the first of the highest scores. */
  ghost predicate FirstMax(s: seq<Scored>, k: int)
  {
    && 0 <= k < |s|
    && (forall j | 0 <= j < |s| :: s[j].score <= s[k].score)
    && (forall j | 0 <= j < k :: s[j].score < s[k].score)
  }

  /** The first row after the sort is the first row with the highest score. */
  lemma {:induction false} SortHead(s: seq<Scored>)
    requires s != []
    ensures exists k :: FirstMax(s, k) && SortByScore(s)[0] == s[k]
  {
    var t := SortByScore(s[1..]);
    SortDescending(s[1..]);
    InsertHead(s[0], t);
    if t == [] || t[0].score <= s[0].score {
      if t != [] {
        SortPermutation(s[1..]);
        forall j | 1 <= j < |s|
          ensures s[j].score <= s[0].score
        {
          assert s[j] == s[1..][j - 1];
          assert s[j] in multiset(t);
          var i :| 0 <= i < |t| && t[i] == s[j];
        }
      }
      assert FirstMax(s, 0);
    } else {
      SortHead(s[1..]);
      var k' :| FirstMax(s[1..], k') && t[0] == s[1..][k'];
      assert FirstMax(s, k' + 1);
    }
  }

  /** What `getValidationForSelection(validationRows, selection)` returns. */
  function ValidationOf(rows: seq<Row>, sel: Selection): Option<string>
  {
    if sel.exprLabel == [] then None
    else
      var word := Normalize(sel.exprLabel);
      var branch := Normalize(sel.branchLabel);
      var matches := Matching(rows, word);
      if |matches| == 0 then None
      else if |matches| == 1 then Some(Trim(Field(matches[0], "Christian Validation")))
      else Some(Trim(Field(SortByScore(ScoreAll(matches, branch))[0].row, "Christian Validation")))
  }

  /**
    No text without an expression label or without a row whose normalised
    Emotion is the normalised label; the trimmed text of the only matching
    row; otherwise that of the first matching row with the highest score.
  */
  lemma ValidationChoice(rows: seq<Row>, sel: Selection)
    ensures ValidationOf(rows, sel).None? <==>
      sel.exprLabel == [] || forall r | r in rows :: Normalize(Field(r, "Emotion")) != Normalize(sel.exprLabel)
    ensures sel.exprLabel != [] ==>
      var matches := Matching(rows, Normalize(sel.exprLabel));
      && (|matches| == 1 ==> ValidationOf(rows, sel) == Some(Trim(Field(matches[0], "Christian Validation"))))
      && (|matches| >= 2 ==>
            exists k :: (FirstMax(ScoreAll(matches, Normalize(sel.branchLabel)), k)
              && ValidationOf(rows, sel) == Some(Trim(Field(matches[k], "Christian Validation")))))
  {
    if sel.exprLabel != [] {
      var matches := Matching(rows, Normalize(sel.exprLabel));
      if matches != [] {
        assert matches[0] in matches;
      }
      if |matches| >= 2 {
        var scored := ScoreAll(matches, Normalize(sel.branchLabel));
        SortHead(scored);
        var k :| FirstMax(scored, k) && SortByScore(scored)[0] == scored[k];
        ScoreAllAt(matches, Normalize(sel.branchLabel), k);
      }
    }
  }

  /** The `for` loop of the source that adds up one matching row's score. */
  method ScoreRow(subtype: string, branch: string) returns (score: int)
    ensures score == RowScore(subtype, branch)
  {
    score := 0;
    if Overlap(subtype, branch) {
      score := score + 3;
    }
    var tokens := BranchTokens(branch);
    for i := 0 to |tokens|
      invariant score == ContainmentBonus(subtype, branch) + TokenBonus(tokens[..i], subtype)
    {
      TokenBonusStep(tokens, i, subtype);
      var t := tokens[i];
      if Overlap(t, subtype) {
        score := score + 1;
      }
    }
    assert tokens[..|tokens|] == tokens;
  }

  /** `matches.map(...)`: every matching row with its score, in table order. */
  method ScoreMatches(matches: seq<Row>, branch: string) returns (scored: seq<Scored>)
    ensures scored == ScoreAll(matches, branch)
  {
    scored := [];
    for k := 0 to |matches|
      invariant scored == ScoreAll(matches[..k], branch)
    {
      var score := ScoreRow(Normalize(Field(matches[k], "Subtype")), branch);
      assert matches[..k + 1][..k] == matches[..k];
      scored := scored + [Scored(matches[k], score)];
      assert scored == ScoreAll(matches[..k + 1], branch);
    }
    assert matches[..|matches|] == matches;
  }

  /** `getValidationForSelection`: filter, score each match, stable sort, take the first. */
  method ValidationForSelection(rows: seq<Row>, sel: Selection) returns (text: Option<string>)
    ensures text == ValidationOf(rows, sel)
  {
    if sel.exprLabel == [] {
      return None;
    }
    var word := Normalize(sel.exprLabel);
    var branch := Normalize(sel.branchLabel);
    var matches := Matching(rows, word);
    if |matches| == 0 {
      return None;
    }
    if |matches| == 1 {
      return Some(Trim(Field(matches[0], "Christian Validation")));
    }
    var scored := ScoreMatches(matches, branch);
    var sorted := SortByScore(scored);
    return Some(Trim(Field(sorted[0].row, "Christian Validation")));
  }
}
