/**
  The two trees of the unified wheels schema (`schema.trees`): the
  discernment wheel (core feeling, branch, expression) and the next-steps
  wheel (core feeling, outer group, steps). A field the JSON may omit
  (`branches`, `expressions`, `outer_emotions`, `match_words`, `steps`) is
  read as the empty list, as every reader of the schema does. Steps are
  passed through untouched, so their type is a parameter. Every node's
  `label` is its `name` here (`label` is a Dafny keyword).
*/
module Schema {

  datatype Expression = Expression(name: string)

  datatype Branch = Branch(name: string, expressions: seq<Expression>)

  datatype Core = Core(name: string, branches: seq<Branch>)

  /** An outer group of the next-steps wheel; `matchWords` is its `match_words`. */
  datatype OuterGroup<S> = OuterGroup(name: string, matchWords: seq<string>, steps: seq<S>)

  /** A core node of the next-steps wheel; `outerEmotions` is its `outer_emotions`. */
  datatype GuidanceCore<S> = GuidanceCore(name: string, outerEmotions: seq<OuterGroup<S>>)

  /** `schema.trees`: `discernment_wheel` and `next_steps_wheel`. */
  datatype Trees<S> = Trees(discernmentWheel: seq<Core>, nextStepsWheel: seq<GuidanceCore<S>>)
}
