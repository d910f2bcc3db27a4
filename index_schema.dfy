/**
  `buildIndexes` of the standalone wheel (phil48-wheel/src/utils/indexSchema.js):
  it walks the discernment wheel into a core -> expression-path index and a
  normalised-expression -> path index, walks the next-steps wheel into a
  core -> outer-group -> steps index, and then gives every expression the
  steps of the first outer group whose `/`-separated label names it.

  Each JavaScript `Map` is an `OMap` (its keys in insertion order and its
  values); the loops of the source are methods proved equal to the
  functions that specify them, and the properties the source relies on are
  lemmas about those functions.
*/
module IndexSchema {
  import opened Optional
  import opened Text
  import opened OrderedMap
  import opened Schema

  /** `{ core, branch, expression }`: where an expression sits in the discernment wheel. */
  datatype Path = Path(core: string, branch: string, expression: string)

  /** `{ ...meta, outerGroup, steps }`: an expression's path with the outer group it was matched to. */
  datatype StepsEntry<S> = StepsEntry(core: string, branch: string, expression: string, outerGroup: string, steps: seq<S>)

  /** What `buildIndexes` returns. */
  datatype Indexes<S> = Indexes(expressionsByCore: OMap<string, seq<Path>>, stepsByExpression: OMap<string, StepsEntry<S>>)

  // ---------------------------------------------------------------------------
  // splitOuterGroupLabel
  // ---------------------------------------------------------------------------

  /** `splitOuterGroupLabel`: the label split on `/`, each piece normalised. */
  function SplitOuterGroupLabel(lbl: string): (tokens: seq<string>)
    ensures |tokens| == |Split(lbl, '/')|
  {
    NormalizeAll(Split(lbl, '/'))
  }

  /** A key is a token of a label exactly when some `/`-piece of the label normalises to it. */
  lemma TokensOfLabel(lbl: string, key: string)
    ensures key in SplitOuterGroupLabel(lbl) ==>
      exists k | 0 <= k < |Split(lbl, '/')| :: Normalize(Split(lbl, '/')[k]) == key
    ensures (exists k | 0 <= k < |Split(lbl, '/')| :: Normalize(Split(lbl, '/')[k]) == key) ==>
      key in SplitOuterGroupLabel(lbl)
  {
    var pieces := Split(lbl, '/');
    var tokens := SplitOuterGroupLabel(lbl);
    if key in tokens {
      var k :| 0 <= k < |tokens| && tokens[k] == key;
      NormalizeAllAt(pieces, k);
      assert Normalize(pieces[k]) == key;
    }
    if exists k | 0 <= k < |pieces| :: Normalize(pieces[k]) == key {
      var k :| 0 <= k < |pieces| && Normalize(pieces[k]) == key;
      NormalizeAllAt(pieces, k);
      assert tokens[k] == key;
    }
  }

  /** The source's own example: `"Panicked / Flooded"` gives the tokens `panicked` and `flooded`. */
  lemma SplitOuterGroupLabelExample()
    ensures SplitOuterGroupLabel("Panicked / Flooded") == ["panicked", "flooded"]
  {
    var left, right := "Panicked ", " Flooded";
    assert "Panicked / Flooded" == left + ['/'] + right;
    SplitOuterGroupLabelOfTwo(left, right);
    NormalizePanicked();
    NormalizeFlooded();
  }

  /** A label with one `/` gives the two normalised sides as its tokens. */
  lemma SplitOuterGroupLabelOfTwo(a: string, b: string)
    requires forall i | 0 <= i < |a| :: a[i] != '/'
    requires forall i | 0 <= i < |b| :: b[i] != '/'
    ensures SplitOuterGroupLabel(a + ['/'] + b) == [Normalize(a), Normalize(b)]
  {
    SplitAfter(a, b, '/');
    SplitNoSeparator(b, '/');
    var pieces := [a, b];
    assert NormalizeAll(pieces) == [Normalize(a), Normalize(b)] by {
      assert pieces[1..][1..] == [];
    }
  }

  lemma NormalizePanicked()
    ensures Normalize("Panicked ") == "panicked"
  {
    var w := "Panicked ";
    assert LeadingSpaces(w) == 0;
    assert TrailingSpaces(w[..8]) == 0;
    assert TrailingSpaces(w) == 1;
    assert Trim(w) == w[..8] == "Panicked";
    LowerWord("Panicked", "panicked");
  }

  lemma NormalizeFlooded()
    ensures Normalize(" Flooded") == "flooded"
  {
    var w := " Flooded";
    assert LeadingSpaces(w[1..]) == 0;
    assert LeadingSpaces(w) == 1;
    assert TrailingSpaces(w[1..]) == 0;
    assert Trim(w) == w[1..] == "Flooded";
    LowerWord("Flooded", "flooded");
  }

  /** Lower-casing a word, checked letter by letter. */
  lemma LowerWord(w: string, lower: string)
    requires |w| == |lower| && forall i | 0 <= i < |w| :: Lower(w[i]) == lower[i]
    ensures ToLower(w) == lower
  {
    ToLowerAt(w);
  }

  /** Every token is already normalised: normalising it again changes nothing. */
  lemma TokensNormalized(lbl: string, k: nat)
    requires k < |SplitOuterGroupLabel(lbl)|
    ensures Normalize(SplitOuterGroupLabel(lbl)[k]) == SplitOuterGroupLabel(lbl)[k]
  {
    NormalizeAllAt(Split(lbl, '/'), k);
    NormalizeIdempotent(Split(lbl, '/')[k]);
  }

  // ---------------------------------------------------------------------------
  // The discernment wheel: expressionsByCore and expressionMeta
  // ---------------------------------------------------------------------------

  /** The paths of a branch's expressions, in order. */
  function ExprPaths(core: string, branch: string, es: seq<Expression>): (ps: seq<Path>)
    ensures |ps| == |es|
  {
    if es == [] then []
    else ExprPaths(core, branch, es[..|es| - 1]) + [Path(core, branch, es[|es| - 1].name)]
  }

  /** The paths of the expressions under `bs`, branch by branch. */
  function BranchesPaths(core: string, bs: seq<Branch>): seq<Path>
  {
    if bs == [] then []
    else
      var n := |bs| - 1;
      BranchesPaths(core, bs[..n]) + ExprPaths(core, bs[n].name, bs[n].expressions)
  }

  /** One more branch appends that branch's paths. */
  lemma BranchesPathsSnoc(core: string, bs: seq<Branch>, j: nat)
    requires j < |bs|
    ensures BranchesPaths(core, bs[..j + 1]) == BranchesPaths(core, bs[..j]) + ExprPaths(core, bs[j].name, bs[j].expressions)
  {
    assert bs[..j + 1][..j] == bs[..j];
  }

  /** The `exprList` of a core node: its expressions in branch-then-expression order. */
  function CorePaths(c: Core): seq<Path>
  {
    BranchesPaths(c.name, c.branches)
  }

  /** Every expression of every core node, in traversal order. */
  function AllPaths(tree: seq<Core>): seq<Path>
  {
    if tree == [] then [] else AllPaths(tree[..|tree| - 1]) + CorePaths(tree[|tree| - 1])
  }

  /** `expressionsByCore.set(core, exprList)`, once per core node. */
  function CoreEntries(tree: seq<Core>): (es: seq<(string, seq<Path>)>)
    ensures |es| == |tree|
  {
    if tree == [] then []
    else CoreEntries(tree[..|tree| - 1]) + [(tree[|tree| - 1].name, CorePaths(tree[|tree| - 1]))]
  }

  function ExpressionsByCore(tree: seq<Core>): OMap<string, seq<Path>>
  {
    FromEntries(CoreEntries(tree))
  }

  /** `expressionMeta.set(norm(word), meta)` for each path of `ps`, in order, starting from `m`. */
  function WithMeta(m: OMap<string, Path>, ps: seq<Path>): OMap<string, Path>
  {
    if ps == [] then m
    else
      var p := ps[|ps| - 1];
      Put(WithMeta(m, ps[..|ps| - 1]), Normalize(p.expression), p)
  }

  function ExpressionMeta(tree: seq<Core>): OMap<string, Path>
  {
    WithMeta(Empty(), AllPaths(tree))
  }

  /** The `set` calls behind `expressionMeta`, as entries. */
  function MetaEntries(ps: seq<Path>): (es: seq<(string, Path)>)
    ensures |es| == |ps|
  {
    if ps == [] then []
    else MetaEntries(ps[..|ps| - 1]) + [(Normalize(ps[|ps| - 1].expression), ps[|ps| - 1])]
  }

  lemma ExprPathsSnoc(core: string, branch: string, es: seq<Expression>, k: nat)
    requires k < |es|
    ensures ExprPaths(core, branch, es[..k + 1]) == ExprPaths(core, branch, es[..k]) + [Path(core, branch, es[k].name)]
  {
    assert es[..k + 1][..k] == es[..k];
  }

  lemma WithMetaSnoc(m: OMap<string, Path>, ps: seq<Path>, p: Path)
    ensures WithMeta(m, ps + [p]) == Put(WithMeta(m, ps), Normalize(p.expression), p)
  {
    assert (ps + [p])[..|ps|] == ps;
  }

  /** Setting the paths of `a` and then those of `b` is setting those of `a + b`. */
  lemma {:induction false} WithMetaAppend(m: OMap<string, Path>, a: seq<Path>, b: seq<Path>)
    ensures WithMeta(WithMeta(m, a), b) == WithMeta(m, a + b)
    decreases |b|
  {
    if b == [] {
      assert a + b == a;
    } else {
      var n := |b| - 1;
      var p := b[n];
      calc {
        WithMeta(WithMeta(m, a), b);
        { assert b == b[..n] + [p]; }
        WithMeta(WithMeta(m, a), b[..n] + [p]);
        { WithMetaSnoc(WithMeta(m, a), b[..n], p); }
        Put(WithMeta(WithMeta(m, a), b[..n]), Normalize(p.expression), p);
        { WithMetaAppend(m, a, b[..n]); }
        Put(WithMeta(m, a + b[..n]), Normalize(p.expression), p);
        { WithMetaSnoc(m, a + b[..n], p); }
        WithMeta(m, (a + b[..n]) + [p]);
        { assert a + b == (a + b[..n]) + [p]; }
        WithMeta(m, a + b);
      }
    }
  }

  /** `expressionMeta` is the map built from its `set` calls. */
  lemma {:induction false} WithMetaIsFromEntries(ps: seq<Path>)
    ensures WithMeta(Empty(), ps) == FromEntries(MetaEntries(ps))
  {
    if ps != [] {
      WithMetaIsFromEntries(ps[..|ps| - 1]);
      var es := MetaEntries(ps);
      assert es[..|es| - 1] == MetaEntries(ps[..|ps| - 1]);
    }
  }

  /** `expressionMeta` lists each key once, and exactly its keys. */
  lemma ExpressionMetaValid(tree: seq<Core>)
    ensures Valid(ExpressionMeta(tree))
  {
    WithMetaIsFromEntries(AllPaths(tree));
    FromEntriesValid(MetaEntries(AllPaths(tree)));
  }

  lemma {:induction false} MetaEntriesAt(ps: seq<Path>, i: nat)
    requires i < |ps|
    ensures MetaEntries(ps)[i] == (Normalize(ps[i].expression), ps[i])
  {
    if i < |ps| - 1 {
      MetaEntriesAt(ps[..|ps| - 1], i);
    }
  }

  /** The paths of a branch are its expressions, in order, under that core and branch. */
  lemma {:induction false} ExprPathsAt(core: string, branch: string, es: seq<Expression>, k: nat)
    requires k < |es|
    ensures ExprPaths(core, branch, es)[k] == Path(core, branch, es[k].name)
  {
    if k < |es| - 1 {
      ExprPathsAt(core, branch, es[..|es| - 1], k);
    }
  }

  /**
    The list of a core node holds, for each of its branches and each of that
    branch's expressions, the path `{ core, branch, expression }`, and
    nothing else.
  */
  lemma {:induction false} BranchesPathsMembers(core: string, bs: seq<Branch>, p: Path)
    ensures p in BranchesPaths(core, bs) <==>
      exists j, k | 0 <= j < |bs| && 0 <= k < |bs[j].expressions| :: p == Path(core, bs[j].name, bs[j].expressions[k].name)
  {
    if bs != [] {
      var n := |bs| - 1;
      var pre := bs[..n];
      var last := ExprPaths(core, bs[n].name, bs[n].expressions);
      BranchesPathsMembers(core, pre, p);
      if p in last {
        var k :| 0 <= k < |last| && last[k] == p;
        ExprPathsAt(core, bs[n].name, bs[n].expressions, k);
      }
      if exists j, k | 0 <= j < |bs| && 0 <= k < |bs[j].expressions| :: p == Path(core, bs[j].name, bs[j].expressions[k].name) {
        var j, k :| 0 <= j < |bs| && 0 <= k < |bs[j].expressions| && p == Path(core, bs[j].name, bs[j].expressions[k].name);
        if j == n {
          ExprPathsAt(core, bs[n].name, bs[n].expressions, k);
          assert last[k] == p;
        } else {
          assert pre[j] == bs[j];
        }
      }
    }
  }

  /**
    A core label is a key of `expressionsByCore` exactly when some core node
    has it, and its list is that of the last such node.
  */
  lemma ExpressionsByCoreLastWins(tree: seq<Core>, i: nat)
    requires i < |tree|
    requires forall j | i < j < |tree| :: tree[j].name != tree[i].name
    ensures tree[i].name in ExpressionsByCore(tree).values
    ensures ExpressionsByCore(tree).values[tree[i].name] == CorePaths(tree[i])
  {
    CoreEntriesAt(tree, i);
    forall j | i < j < |tree|
      ensures CoreEntries(tree)[j].0 != CoreEntries(tree)[i].0
    {
      CoreEntriesAt(tree, j);
    }
    FromEntriesLastWins(CoreEntries(tree), i);
  }

  /** The keys of `expressionsByCore` are exactly the labels of the core nodes. */
  lemma ExpressionsByCoreKeys(tree: seq<Core>, k: string)
    ensures k in ExpressionsByCore(tree).values <==> exists i | 0 <= i < |tree| :: tree[i].name == k
  {
    var es := CoreEntries(tree);
    FromEntriesHasKey(es, k);
    if exists i | 0 <= i < |es| :: es[i].0 == k {
      var i :| 0 <= i < |es| && es[i].0 == k;
      CoreEntriesAt(tree, i);
    }
    if exists i | 0 <= i < |tree| :: tree[i].name == k {
      var i :| 0 <= i < |tree| && tree[i].name == k;
      CoreEntriesAt(tree, i);
    }
  }

  lemma {:induction false} CoreEntriesAt(tree: seq<Core>, i: nat)
    requires i < |tree|
    ensures CoreEntries(tree)[i] == (tree[i].name, CorePaths(tree[i]))
  {
    if i < |tree| - 1 {
      CoreEntriesAt(tree[..|tree| - 1], i);
    }
  }

  /**
    Last write wins in `expressionMeta`: the value under a normalised label
    is the last path in traversal order whose expression normalises to it.
  */
  lemma ExpressionMetaLastWins(tree: seq<Core>, i: nat)
    requires i < |AllPaths(tree)|
    requires forall j | i < j < |AllPaths(tree)| :: Normalize(AllPaths(tree)[j].expression) != Normalize(AllPaths(tree)[i].expression)
    ensures Normalize(AllPaths(tree)[i].expression) in ExpressionMeta(tree).values
    ensures ExpressionMeta(tree).values[Normalize(AllPaths(tree)[i].expression)] == AllPaths(tree)[i]
  {
    var ps := AllPaths(tree);
    var es := MetaEntries(ps);
    WithMetaIsFromEntries(ps);
    MetaEntriesAt(ps, i);
    forall j | i < j < |es|
      ensures es[j].0 != es[i].0
    {
      MetaEntriesAt(ps, j);
    }
    FromEntriesLastWins(es, i);
  }

  /** The keys of `expressionMeta` are exactly the normalised expression labels. */
  lemma ExpressionMetaKeys(tree: seq<Core>, key: string)
    ensures key in ExpressionMeta(tree).values ==>
      exists i | 0 <= i < |AllPaths(tree)| :: Normalize(AllPaths(tree)[i].expression) == key
    ensures (exists i | 0 <= i < |AllPaths(tree)| :: Normalize(AllPaths(tree)[i].expression) == key) ==>
      key in ExpressionMeta(tree).values
  {
    var ps := AllPaths(tree);
    var es := MetaEntries(ps);
    WithMetaIsFromEntries(ps);
    FromEntriesHasKey(es, key);
    if exists i | 0 <= i < |es| :: es[i].0 == key {
      var i :| 0 <= i < |es| && es[i].0 == key;
      MetaEntriesAt(ps, i);
      assert Normalize(ps[i].expression) == key;
    }
    if exists i | 0 <= i < |ps| :: Normalize(ps[i].expression) == key {
      var i :| 0 <= i < |ps| && Normalize(ps[i].expression) == key;
      MetaEntriesAt(ps, i);
      assert es[i].0 == key;
    }
  }

  // ---------------------------------------------------------------------------
  // The next-steps wheel: stepsByCoreOuterGroup
  // ---------------------------------------------------------------------------

  /** `outerMap.set(og.label, og.steps || [])`, once per outer group. */
  function GroupEntries<S>(groups: seq<OuterGroup<S>>): (es: seq<(string, seq<S>)>)
    ensures |es| == |groups|
  {
    if groups == [] then []
    else GroupEntries(groups[..|groups| - 1]) + [(groups[|groups| - 1].name, groups[|groups| - 1].steps)]
  }

  function OuterMapOf<S>(groups: seq<OuterGroup<S>>): OMap<string, seq<S>>
  {
    FromEntries(GroupEntries(groups))
  }

  /** `stepsByCoreOuterGroup.set(core, outerMap)`, once per core node. */
  function GuidanceEntries<S>(tree: seq<GuidanceCore<S>>): (es: seq<(string, OMap<string, seq<S>>)>)
    ensures |es| == |tree|
  {
    if tree == [] then []
    else GuidanceEntries(tree[..|tree| - 1]) + [(tree[|tree| - 1].name, OuterMapOf(tree[|tree| - 1].outerEmotions))]
  }

  function StepsByCore<S>(tree: seq<GuidanceCore<S>>): OMap<string, OMap<string, seq<S>>>
  {
    FromEntries(GuidanceEntries(tree))
  }

  lemma {:induction false} GroupEntriesAt<S>(groups: seq<OuterGroup<S>>, i: nat)
    requires i < |groups|
    ensures GroupEntries(groups)[i] == (groups[i].name, groups[i].steps)
  {
    if i < |groups| - 1 {
      GroupEntriesAt(groups[..|groups| - 1], i);
    }
  }

  /** Within one core, a later outer group with the same label overwrites the steps. */
  lemma OuterMapLastWins<S>(groups: seq<OuterGroup<S>>, i: nat)
    requires i < |groups|
    requires forall j | i < j < |groups| :: groups[j].name != groups[i].name
    ensures groups[i].name in OuterMapOf(groups).values
    ensures OuterMapOf(groups).values[groups[i].name] == groups[i].steps
  {
    var es := GroupEntries(groups);
    GroupEntriesAt(groups, i);
    forall j | i < j < |groups|
      ensures es[j].0 != es[i].0
    {
      GroupEntriesAt(groups, j);
    }
    FromEntriesLastWins(es, i);
  }

  /**
    The labels of an outer map are listed in the order in which each first
    appears among the groups: an overwrite keeps the first position.
  */
  lemma OuterMapOrder<S>(groups: seq<OuterGroup<S>>, p: nat, q: nat)
    requires p < q < |OuterMapOf(groups).keys|
    ensures FirstLabel(groups, OuterMapOf(groups).keys[p]) < FirstLabel(groups, OuterMapOf(groups).keys[q]) < |groups|
  {
    var es := GroupEntries(groups);
    FromEntriesOrder(es, p, q);
    FirstLabelIsFirstIndex(groups, OuterMapOf(groups).keys[p]);
    FirstLabelIsFirstIndex(groups, OuterMapOf(groups).keys[q]);
  }

  /** The index of the first group labelled `label`, or `|groups|` when there is none. */
  function FirstLabel<S>(groups: seq<OuterGroup<S>>, lbl: string): (i: nat)
    ensures i <= |groups|
    ensures i < |groups| ==> groups[i].name == lbl
    ensures forall j | 0 <= j < i :: groups[j].name != lbl
  {
    if groups == [] then 0 else if groups[0].name == lbl then 0 else 1 + FirstLabel(groups[1..], lbl)
  }

  lemma FirstLabelIsFirstIndex<S>(groups: seq<OuterGroup<S>>, lbl: string)
    ensures FirstLabel(groups, lbl) == FirstIndex(GroupEntries(groups), lbl)
  {
    var es := GroupEntries(groups);
    var a := FirstLabel(groups, lbl);
    var b := FirstIndex(es, lbl);
    if a < b {
      GroupEntriesAt(groups, a);
    } else if b < a {
      GroupEntriesAt(groups, b);
    }
  }

  // ---------------------------------------------------------------------------
  // stepsByExpression
  // ---------------------------------------------------------------------------

  /**
    The inner `for ... break` loop: the index of the first label among
    `labels` whose tokens include `key`, or `|labels|` when none does.
  */
  function FirstMatch(labels: seq<string>, key: string): (i: nat)
    ensures i <= |labels|
  {
    if labels == [] then 0
    else if key in SplitOuterGroupLabel(labels[0]) then 0
    else 1 + FirstMatch(labels[1..], key)
  }

  /** The label found has the key as a token, and no label before it does. */
  lemma {:induction false} FirstMatchIsFirst(labels: seq<string>, key: string)
    ensures FirstMatch(labels, key) < |labels| ==> key in SplitOuterGroupLabel(labels[FirstMatch(labels, key)])
    ensures forall j | 0 <= j < FirstMatch(labels, key) :: key !in SplitOuterGroupLabel(labels[j])
  {
    if labels != [] && key !in SplitOuterGroupLabel(labels[0]) {
      var rest := labels[1..];
      var i := FirstMatch(rest, key);
      assert FirstMatch(labels, key) == 1 + i;
      FirstMatchIsFirst(rest, key);
      assert i < |rest| ==> labels[1 + i] == rest[i];
      forall j | 1 <= j < 1 + i
        ensures key !in SplitOuterGroupLabel(labels[j])
      {
        assert labels[j] == rest[j - 1];
      }
    }
  }

  /**
    The entry one `expressionMeta` entry contributes: none when its core has
    no outer map, when no outer-group label has the key as a token, or when
    the first such label is "" (it is falsy); otherwise the path with that
    label and its steps.
  */
  function Associate<S>(key: string, p: Path, byCore: OMap<string, OMap<string, seq<S>>>): Option<StepsEntry<S>>
  {
    if p.core !in byCore.values then None
    else
      var outer := byCore.values[p.core];
      var i := FirstMatch(outer.keys, key);
      if i == |outer.keys| || outer.keys[i] == [] then None
      else
        var lbl := outer.keys[i];
        Some(StepsEntry(p.core, p.branch, p.expression, lbl, if lbl in outer.values then outer.values[lbl] else []))
  }

  /** The `stepsByExpression.set` calls made while walking the meta keys `keys` in order. */
  function StepEntries<S>(keys: seq<string>, meta: OMap<string, Path>, byCore: OMap<string, OMap<string, seq<S>>>): (es: seq<(string, StepsEntry<S>)>)
    ensures |es| <= |keys|
  {
    if keys == [] then []
    else
      var n := |keys| - 1;
      var prev := StepEntries(keys[..n], meta, byCore);
      if keys[n] !in meta.values then prev
      else
        var a := Associate(keys[n], meta.values[keys[n]], byCore);
        if a.None? then prev else prev + [(keys[n], a.value)]
  }

  function StepsByExpression<S>(meta: OMap<string, Path>, byCore: OMap<string, OMap<string, seq<S>>>): OMap<string, StepsEntry<S>>
  {
    FromEntries(StepEntries(meta.keys, meta, byCore))
  }

  /** What `buildIndexes(schema)` returns for the trees of `schema`. */
  function IndexesOf<S>(trees: Trees<S>): Indexes<S>
  {
    var meta := ExpressionMeta(trees.discernmentWheel);
    Indexes(ExpressionsByCore(trees.discernmentWheel), StepsByExpression(meta, StepsByCore(trees.nextStepsWheel)))
  }

  /** Every `set` made while walking `keys` is for one of those keys, with the entry `Associate` gives it. */
  lemma {:induction false} StepEntriesMember<S>(keys: seq<string>, meta: OMap<string, Path>, byCore: OMap<string, OMap<string, seq<S>>>, i: nat)
    requires i < |StepEntries(keys, meta, byCore)|
    ensures StepEntries(keys, meta, byCore)[i].0 in keys
    ensures StepEntries(keys, meta, byCore)[i].0 in meta.values
    ensures var k := StepEntries(keys, meta, byCore)[i].0;
      Associate(k, meta.values[k], byCore) == Some(StepEntries(keys, meta, byCore)[i].1)
  {
    var n := |keys| - 1;
    var prev := StepEntries(keys[..n], meta, byCore);
    var es := StepEntries(keys, meta, byCore);
    if i < |prev| {
      StepEntriesMember(keys[..n], meta, byCore, i);
      assert es[i] == prev[i];
    }
  }

  /** A walked key that `Associate` gives an entry gets that entry set. */
  lemma {:induction false} StepEntriesComplete<S>(keys: seq<string>, meta: OMap<string, Path>, byCore: OMap<string, OMap<string, seq<S>>>, i: nat)
    requires i < |keys| && keys[i] in meta.values
    requires Associate(keys[i], meta.values[keys[i]], byCore).Some?
    ensures (keys[i], Associate(keys[i], meta.values[keys[i]], byCore).value) in StepEntries(keys, meta, byCore)
  {
    var n := |keys| - 1;
    if i < n {
      var pre := keys[..n];
      var e := (keys[i], Associate(keys[i], meta.values[keys[i]], byCore).value);
      assert pre[i] == keys[i];
      StepEntriesComplete(pre, meta, byCore, i);
      var prev := StepEntries(pre, meta, byCore);
      var j :| 0 <= j < |prev| && prev[j] == e;
      StepEntriesPrefix(keys, meta, byCore);
      assert StepEntries(keys, meta, byCore)[j] == e;
    } else {
      StepEntriesLast(keys, meta, byCore);
    }
  }

  /** The walk over fewer keys is a prefix of the walk over more. */
  lemma StepEntriesPrefix<S>(keys: seq<string>, meta: OMap<string, Path>, byCore: OMap<string, OMap<string, seq<S>>>)
    requires keys != []
    ensures StepEntries(keys[..|keys| - 1], meta, byCore) <= StepEntries(keys, meta, byCore)
  {
  }

  /** The last key, when it is associated, is set last. */
  lemma StepEntriesLast<S>(keys: seq<string>, meta: OMap<string, Path>, byCore: OMap<string, OMap<string, seq<S>>>)
    requires keys != [] && keys[|keys| - 1] in meta.values
    requires Associate(keys[|keys| - 1], meta.values[keys[|keys| - 1]], byCore).Some?
    ensures (keys[|keys| - 1], Associate(keys[|keys| - 1], meta.values[keys[|keys| - 1]], byCore).value) in StepEntries(keys, meta, byCore)
  {
  }

  /** No two entries share a key. */
  ghost predicate DistinctKeys<K, V>(es: seq<(K, V)>)
  {
    forall i, j | 0 <= i < j < |es| :: es[i].0 != es[j].0
  }

  /** Walking keys listed once each sets each key at most once. */
  lemma {:induction false} StepEntriesDistinct<S>(keys: seq<string>, meta: OMap<string, Path>, byCore: OMap<string, OMap<string, seq<S>>>)
    requires forall i, j | 0 <= i < j < |keys| :: keys[i] != keys[j]
    ensures DistinctKeys(StepEntries(keys, meta, byCore))
  {
    if keys != [] {
      var n := |keys| - 1;
      var pre := keys[..n];
      var prev := StepEntries(pre, meta, byCore);
      forall i, j | 0 <= i < j < |pre|
        ensures pre[i] != pre[j]
      {
      }
      StepEntriesDistinct(pre, meta, byCore);
      if keys[n] in meta.values {
        var a := Associate(keys[n], meta.values[keys[n]], byCore);
        if a.Some? {
          LastNotEarlier(keys);
          forall i | 0 <= i < |prev|
            ensures prev[i].0 != keys[n]
          {
            StepEntriesMember(pre, meta, byCore, i);
          }
          DistinctKeysSnoc(prev, (keys[n], a.value));
          assert StepEntries(keys, meta, byCore) == prev + [(keys[n], a.value)];
        } else {
          assert StepEntries(keys, meta, byCore) == prev;
        }
      } else {
        assert StepEntries(keys, meta, byCore) == prev;
      }
    }
  }

  /** In a list without repeats the last element does not occur earlier. */
  lemma LastNotEarlier<T>(xs: seq<T>)
    requires xs != []
    requires forall i, j | 0 <= i < j < |xs| :: xs[i] != xs[j]
    ensures xs[|xs| - 1] !in xs[..|xs| - 1]
  {
    var n := |xs| - 1;
    var pre := xs[..n];
    forall m | 0 <= m < |pre|
      ensures pre[m] != xs[n]
    {
      assert pre[m] == xs[m];
    }
  }

  /** Entries with distinct keys keep them distinct after an entry with a new key. */
  lemma DistinctKeysSnoc<K, V>(es: seq<(K, V)>, e: (K, V))
    requires DistinctKeys(es)
    requires forall i | 0 <= i < |es| :: es[i].0 != e.0
    ensures DistinctKeys(es + [e])
  {
    var more := es + [e];
    forall i, j | 0 <= i < j < |more|
      ensures more[i].0 != more[j].0
    {
      assert more[i] == es[i];
      if j < |es| {
        assert more[j] == es[j];
      }
    }
  }

  /** Every key of `stepsByExpression` is a key of `expressionMeta`. */
  lemma StepsKeysAreMetaKeys<S>(meta: OMap<string, Path>, byCore: OMap<string, OMap<string, seq<S>>>, key: string)
    requires Valid(meta)
    ensures key in StepsByExpression(meta, byCore).values ==> key in meta.values
  {
    var es := StepEntries(meta.keys, meta, byCore);
    FromEntriesHasKey(es, key);
    if key in StepsByExpression(meta, byCore).values {
      var i :| 0 <= i < |es| && es[i].0 == key;
      StepEntriesMember(meta.keys, meta, byCore, i);
    }
  }

  /**
    An expression key has a `stepsByExpression` entry exactly when `Associate`
    gives one for it, and then the entry is the one `Associate` gives.
  */
  lemma StepsByExpressionIsAssociate<S>(meta: OMap<string, Path>, byCore: OMap<string, OMap<string, seq<S>>>, key: string)
    requires Valid(meta) && key in meta.values
    ensures key in StepsByExpression(meta, byCore).values <==> Associate(key, meta.values[key], byCore).Some?
    ensures key in StepsByExpression(meta, byCore).values ==>
      StepsByExpression(meta, byCore).values[key] == Associate(key, meta.values[key], byCore).value
  {
    var es := StepEntries(meta.keys, meta, byCore);
    var a := Associate(key, meta.values[key], byCore);
    FromEntriesHasKey(es, key);
    if exists i | 0 <= i < |es| :: es[i].0 == key {
      var i :| 0 <= i < |es| && es[i].0 == key;
      StepEntriesMember(meta.keys, meta, byCore, i);
    }
    if a.Some? {
      var i :| 0 <= i < |meta.keys| && meta.keys[i] == key;
      StepEntriesComplete(meta.keys, meta, byCore, i);
      var j :| 0 <= j < |es| && es[j] == (key, a.value);
      StepEntriesDistinct(meta.keys, meta, byCore);
      FromEntriesLastWins(es, j);
    }
  }

  /**
    An expression key has a `stepsByExpression` entry exactly when its core
    has an outer map and the first outer-group label (in insertion order)
    whose tokens include the key exists and is not ""; the entry is the
    path with that label as `outerGroup` and that group's steps.
  */
  lemma StepsByExpressionEntry<S>(meta: OMap<string, Path>, byCore: OMap<string, OMap<string, seq<S>>>, key: string)
    requires Valid(meta) && key in meta.values
    requires meta.values[key].core in byCore.values ==> Valid(byCore.values[meta.values[key].core])
    ensures var p := meta.values[key];
      key in StepsByExpression(meta, byCore).values <==>
        && p.core in byCore.values
        && FirstMatch(byCore.values[p.core].keys, key) < |byCore.values[p.core].keys|
        && byCore.values[p.core].keys[FirstMatch(byCore.values[p.core].keys, key)] != []
    ensures var p := meta.values[key];
      key in StepsByExpression(meta, byCore).values ==>
        var outer := byCore.values[p.core];
        var lbl := outer.keys[FirstMatch(outer.keys, key)];
        StepsByExpression(meta, byCore).values[key] == StepsEntry(p.core, p.branch, p.expression, lbl, outer.values[lbl])
  {
    StepsByExpressionIsAssociate(meta, byCore, key);
  }

  /** Every outer map of `stepsByCoreOuterGroup` lists each label once, and exactly its labels. */
  lemma StepsByCoreValid<S>(tree: seq<GuidanceCore<S>>, core: string)
    requires core in StepsByCore(tree).values
    ensures Valid(StepsByCore(tree).values[core])
  {
    var es := GuidanceEntries(tree);
    FromEntriesValueFrom(es, core);
    var i :| 0 <= i < |es| && es[i] == (core, StepsByCore(tree).values[core]);
    GuidanceEntriesAt(tree, i);
    FromEntriesValid(GroupEntries(tree[i].outerEmotions));
  }

  lemma {:induction false} GuidanceEntriesAt<S>(tree: seq<GuidanceCore<S>>, i: nat)
    requires i < |tree|
    ensures GuidanceEntries(tree)[i] == (tree[i].name, OuterMapOf(tree[i].outerEmotions))
  {
    if i < |tree| - 1 {
      GuidanceEntriesAt(tree[..|tree| - 1], i);
    }
  }

  /** Only expressions of the discernment wheel get steps: `stepsByExpression`'s keys are `expressionMeta`'s. */
  lemma IndexesStepsKeys<S>(trees: Trees<S>, key: string)
    ensures key in IndexesOf(trees).stepsByExpression.values ==> key in ExpressionMeta(trees.discernmentWheel).values
  {
    ExpressionMetaValid(trees.discernmentWheel);
    StepsKeysAreMetaKeys(ExpressionMeta(trees.discernmentWheel), StepsByCore(trees.nextStepsWheel), key);
  }

  /**
    What `buildIndexes` gives an expression key of the discernment wheel: an
    entry exactly when the core of its (last) path is a core of the next-steps
    wheel and the first outer-group label of that core whose tokens include
    the key exists and is not ""; the entry is the path, that label and the
    steps stored under it.
  */
  lemma IndexesStepsEntry<S>(trees: Trees<S>, key: string)
    requires key in ExpressionMeta(trees.discernmentWheel).values
    ensures var p := ExpressionMeta(trees.discernmentWheel).values[key];
      var byCore := StepsByCore(trees.nextStepsWheel);
      key in IndexesOf(trees).stepsByExpression.values <==>
        && p.core in byCore.values
        && FirstMatch(byCore.values[p.core].keys, key) < |byCore.values[p.core].keys|
        && byCore.values[p.core].keys[FirstMatch(byCore.values[p.core].keys, key)] != []
    ensures var p := ExpressionMeta(trees.discernmentWheel).values[key];
      var byCore := StepsByCore(trees.nextStepsWheel);
      key in IndexesOf(trees).stepsByExpression.values ==>
        var outer := byCore.values[p.core];
        var lbl := outer.keys[FirstMatch(outer.keys, key)];
        && lbl in outer.values
        && IndexesOf(trees).stepsByExpression.values[key] == StepsEntry(p.core, p.branch, p.expression, lbl, outer.values[lbl])
  {
    var meta := ExpressionMeta(trees.discernmentWheel);
    var byCore := StepsByCore(trees.nextStepsWheel);
    ExpressionMetaValid(trees.discernmentWheel);
    if meta.values[key].core in byCore.values {
      StepsByCoreValid(trees.nextStepsWheel, meta.values[key].core);
    }
    StepsByExpressionEntry(meta, byCore, key);
  }

  /** With no next-steps wheel nothing gets steps; with no discernment wheel both indexes are empty. */
  lemma MissingTrees<S>(trees: Trees<S>)
    ensures trees.nextStepsWheel == [] ==> IndexesOf(trees).stepsByExpression == Empty()
    ensures trees.discernmentWheel == [] ==> IndexesOf(trees) == Indexes(Empty(), Empty())
  {
    var meta := ExpressionMeta(trees.discernmentWheel);
    var byCore := StepsByCore(trees.nextStepsWheel);
    if trees.nextStepsWheel == [] {
      NoCoresNoEntries(meta.keys, meta, byCore);
    }
    if trees.discernmentWheel == [] {
      assert meta.keys == [];
    }
  }

  lemma {:induction false} NoCoresNoEntries<S>(keys: seq<string>, meta: OMap<string, Path>, byCore: OMap<string, OMap<string, seq<S>>>)
    requires byCore.values == map[]
    ensures StepEntries(keys, meta, byCore) == []
  {
    if keys != [] {
      NoCoresNoEntries(keys[..|keys| - 1], meta, byCore);
    }
  }

  // ---------------------------------------------------------------------------
  // The loops of buildIndexes
  // ---------------------------------------------------------------------------

  /** The innermost loop: one branch's expressions pushed on `exprList` and set in `expressionMeta`. */
  method IndexBranch(core: string, b: Branch, exprList: seq<Path>, meta: OMap<string, Path>)
    returns (exprList': seq<Path>, meta': OMap<string, Path>)
    ensures exprList' == exprList + ExprPaths(core, b.name, b.expressions)
    ensures meta' == WithMeta(meta, ExprPaths(core, b.name, b.expressions))
  {
    exprList', meta' := exprList, meta;
    for k := 0 to |b.expressions|
      invariant exprList' == exprList + ExprPaths(core, b.name, b.expressions[..k])
      invariant meta' == WithMeta(meta, ExprPaths(core, b.name, b.expressions[..k]))
    {
      var word := b.expressions[k].name;
      var p := Path(core, b.name, word);
      BranchStep(core, b, k, exprList, exprList', meta, meta');
      exprList' := exprList' + [p];
      meta' := Put(meta', Normalize(word), p);
    }
    assert b.expressions[..|b.expressions|] == b.expressions;
  }

  lemma BranchStep(core: string, b: Branch, k: nat, exprList: seq<Path>, done: seq<Path>, meta: OMap<string, Path>, m: OMap<string, Path>)
    requires k < |b.expressions|
    requires done == exprList + ExprPaths(core, b.name, b.expressions[..k])
    requires m == WithMeta(meta, ExprPaths(core, b.name, b.expressions[..k]))
    ensures done + [Path(core, b.name, b.expressions[k].name)] == exprList + ExprPaths(core, b.name, b.expressions[..k + 1])
    ensures Put(m, Normalize(b.expressions[k].name), Path(core, b.name, b.expressions[k].name))
      == WithMeta(meta, ExprPaths(core, b.name, b.expressions[..k + 1]))
  {
    var p := Path(core, b.name, b.expressions[k].name);
    ExprPathsSnoc(core, b.name, b.expressions, k);
    WithMetaSnoc(meta, ExprPaths(core, b.name, b.expressions[..k]), p);
  }

  /** The loop over one core node's branches. */
  method IndexCore(c: Core, meta: OMap<string, Path>) returns (exprList: seq<Path>, meta': OMap<string, Path>)
    ensures exprList == CorePaths(c)
    ensures meta' == WithMeta(meta, CorePaths(c))
  {
    exprList, meta' := [], meta;
    for j := 0 to |c.branches|
      invariant exprList == BranchesPaths(c.name, c.branches[..j])
      invariant meta' == WithMeta(meta, exprList)
    {
      var b := c.branches[j];
      ghost var before := exprList;
      exprList, meta' := IndexBranch(c.name, b, exprList, meta');
      WithMetaAppend(meta, before, ExprPaths(c.name, b.name, b.expressions));
      BranchesPathsSnoc(c.name, c.branches, j);
    }
    assert c.branches[..|c.branches|] == c.branches;
  }

  /** The first loop of `buildIndexes`: `expressionsByCore` and `expressionMeta`. */
  method IndexDiscernment(tree: seq<Core>) returns (byCore: OMap<string, seq<Path>>, meta: OMap<string, Path>)
    ensures byCore == ExpressionsByCore(tree)
    ensures meta == ExpressionMeta(tree)
  {
    byCore, meta := Empty(), Empty();
    for i := 0 to |tree|
      invariant byCore == FromEntries(CoreEntries(tree[..i]))
      invariant meta == WithMeta(Empty(), AllPaths(tree[..i]))
    {
      var c := tree[i];
      ghost var before := AllPaths(tree[..i]);
      var exprList;
      exprList, meta := IndexCore(c, meta);
      WithMetaAppend(Empty(), before, CorePaths(c));
      assert tree[..i + 1][..i] == tree[..i];
      FromEntriesSnoc(CoreEntries(tree[..i]), (c.name, exprList));
      byCore := Put(byCore, c.name, exprList);
    }
    assert tree[..|tree|] == tree;
  }

  /** The loop over one core node's outer groups. */
  method IndexOuterGroups<S>(groups: seq<OuterGroup<S>>) returns (outer: OMap<string, seq<S>>)
    ensures outer == OuterMapOf(groups)
  {
    outer := Empty();
    for k := 0 to |groups|
      invariant outer == FromEntries(GroupEntries(groups[..k]))
    {
      assert groups[..k + 1][..k] == groups[..k];
      FromEntriesSnoc(GroupEntries(groups[..k]), (groups[k].name, groups[k].steps));
      outer := Put(outer, groups[k].name, groups[k].steps);
    }
    assert groups[..|groups|] == groups;
  }

  /** The second loop of `buildIndexes`: `stepsByCoreOuterGroup`. */
  method IndexNextSteps<S>(tree: seq<GuidanceCore<S>>) returns (byCore: OMap<string, OMap<string, seq<S>>>)
    ensures byCore == StepsByCore(tree)
  {
    byCore := Empty();
    for i := 0 to |tree|
      invariant byCore == FromEntries(GuidanceEntries(tree[..i]))
    {
      var outer := IndexOuterGroups(tree[i].outerEmotions);
      assert tree[..i + 1][..i] == tree[..i];
      FromEntriesSnoc(GuidanceEntries(tree[..i]), (tree[i].name, outer));
      byCore := Put(byCore, tree[i].name, outer);
    }
    assert tree[..|tree|] == tree;
  }

  /** The search for the first outer-group label whose tokens include `key`, stopping at the first hit. */
  method FindMatchingGroup(labels: seq<string>, key: string) returns (matched: Option<string>)
    ensures FirstMatch(labels, key) < |labels| ==> matched == Some(labels[FirstMatch(labels, key)])
    ensures FirstMatch(labels, key) == |labels| ==> matched == None
  {
    matched := None;
    for i := 0 to |labels|
      invariant forall j | 0 <= j < i :: key !in SplitOuterGroupLabel(labels[j])
    {
      var tokens := SplitOuterGroupLabel(labels[i]);
      if key in tokens {
        matched := Some(labels[i]);
        FirstMatchIs(labels, key, i);
        return;
      }
    }
    FirstMatchNone(labels, key);
  }

  lemma {:induction false} FirstMatchIs(labels: seq<string>, key: string, i: nat)
    requires i < |labels| && key in SplitOuterGroupLabel(labels[i])
    requires forall j | 0 <= j < i :: key !in SplitOuterGroupLabel(labels[j])
    ensures FirstMatch(labels, key) == i
  {
    if i > 0 {
      FirstMatchIs(labels[1..], key, i - 1);
    }
  }

  lemma {:induction false} FirstMatchNone(labels: seq<string>, key: string)
    requires forall j | 0 <= j < |labels| :: key !in SplitOuterGroupLabel(labels[j])
    ensures FirstMatch(labels, key) == |labels|
  {
    if labels != [] {
      FirstMatchNone(labels[1..], key);
    }
  }

  /** The third loop of `buildIndexes`: `stepsByExpression`, walking `expressionMeta` in insertion order. */
  method AssociateSteps<S>(meta: OMap<string, Path>, byCore: OMap<string, OMap<string, seq<S>>>)
    returns (byExpr: OMap<string, StepsEntry<S>>)
    requires Valid(meta)
    ensures byExpr == StepsByExpression(meta, byCore)
  {
    byExpr := Empty();
    for i := 0 to |meta.keys|
      invariant byExpr == FromEntries(StepEntries(meta.keys[..i], meta, byCore))
    {
      var key := meta.keys[i];
      var entry := MatchExpression(key, meta.values[key], byCore);
      StepEntriesSnoc(meta.keys, meta, byCore, i);
      if entry.None? {
        continue;
      }
      FromEntriesSnoc(StepEntries(meta.keys[..i], meta, byCore), (key, entry.value));
      byExpr := Put(byExpr, key, entry.value);
    }
    assert meta.keys[..|meta.keys|] == meta.keys;
  }

  /** One pass of the third loop: the entry for expression key `key` with path `p`, or none (`continue`). */
  method MatchExpression<S>(key: string, p: Path, byCore: OMap<string, OMap<string, seq<S>>>) returns (entry: Option<StepsEntry<S>>)
    ensures entry == Associate(key, p, byCore)
  {
    if p.core !in byCore.values {
      return None;
    }
    var outer := byCore.values[p.core];
    var matched := FindMatchingGroup(outer.keys, key);
    if matched.None? || matched.value == [] {
      return None;
    }
    var lbl := matched.value;
    var steps := if lbl in outer.values then outer.values[lbl] else [];
    return Some(StepsEntry(p.core, p.branch, p.expression, lbl, steps));
  }

  lemma StepEntriesSnoc<S>(keys: seq<string>, meta: OMap<string, Path>, byCore: OMap<string, OMap<string, seq<S>>>, i: nat)
    requires i < |keys| && keys[i] in meta.values
    ensures var a := Associate(keys[i], meta.values[keys[i]], byCore);
      StepEntries(keys[..i + 1], meta, byCore)
        == if a.None? then StepEntries(keys[..i], meta, byCore) else StepEntries(keys[..i], meta, byCore) + [(keys[i], a.value)]
  {
    assert keys[..i + 1][..i] == keys[..i];
  }

  /** `buildIndexes(schema)`. */
  method BuildIndexes<S>(trees: Trees<S>) returns (ix: Indexes<S>)
    ensures ix == IndexesOf(trees)
  {
    var byCore, meta := IndexDiscernment(trees.discernmentWheel);
    ExpressionMetaValid(trees.discernmentWheel);
    var stepsByCore := IndexNextSteps(trees.nextStepsWheel);
    var byExpr := AssociateSteps(meta, stepsByCore);
    ix := Indexes(byCore, byExpr);
  }
}
