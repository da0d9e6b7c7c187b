/**
 * The null-propagating combinators of logviewer.engine/Maybe.cs, with a
 * null reference as `None`. An action `Do` runs is recorded as the list of
 * values it was run on.
 */
module Maybe {
  import opened Common

  /** `With`: null for a null input, else the evaluator's result. */
  function With<T, R>(input: Option<T>, evaluator: T -> Option<R>): (r: Option<R>)
    ensures input.None? ==> r.None?
    ensures input.Some? ==> r == evaluator(input.value)
  {
    if input.None? then None else evaluator(input.value)
  }

  /** `Return`: the failure value for a null input, else the evaluator's result. */
  function Return<T, R>(input: Option<T>, evaluator: T -> R, failure: R): (r: R)
    ensures input.None? ==> r == failure
    ensures input.Some? ==> r == evaluator(input.value)
  {
    if input.None? then failure else evaluator(input.value)
  }

  /** `ReturnSuccess`: whether the input is not null. */
  function ReturnSuccess<T>(input: Option<T>): (r: bool)
    ensures r <==> input.Some?
  {
    input != None
  }

  /** `If`: the input when it is not null and satisfies the predicate, else null. */
  function If<T>(input: Option<T>, evaluator: T -> bool): (r: Option<T>)
    ensures r.Some? <==> input.Some? && evaluator(input.value)
    ensures r.Some? ==> r == input
  {
    if input.None? then None else if evaluator(input.value) then input else None
  }

  /**
   * `Do`: null and no action for a null input; otherwise the action runs
   * once, on the input, and the input is returned.
   */
  function Do<T>(input: Option<T>): (r: (Option<T>, seq<T>))
    ensures r.0 == input
    ensures input.None? ==> r.1 == []
    ensures input.Some? ==> r.1 == [input.value]
  {
    if input.None? then (None, []) else (input, [input.value])
  }

  /** `With` chains evaluators: the chain of two is one `With` of their composition. */
  lemma WithAssociative<T, U, R>(input: Option<T>, f: T -> Option<U>, g: U -> Option<R>)
    ensures With(With(input, f), g) == With(input, x => With(f(x), g))
  {
  }

  /** `With` over a value that is already there is the plain evaluator, and the identity evaluator changes nothing. */
  lemma WithIdentity<T, R>(x: T, f: T -> Option<R>, input: Option<T>)
    ensures With(Some(x), f) == f(x)
    ensures With(input, y => Some(y)) == input
  {
  }

  /** `Return` is `With` followed by the failure value for a null result. */
  lemma ReturnIsWith<T, R>(input: Option<T>, evaluator: T -> R, failure: R)
    ensures Return(input, evaluator, failure)
            == With(input, x => Some(evaluator(x))).GetOr(failure)
  {
  }

  /** Two `If` filters in a row are one filter by both predicates. */
  lemma IfComposes<T>(input: Option<T>, p: T -> bool, q: T -> bool)
    ensures If(If(input, p), q) == If(input, x => p(x) && q(x))
  {
  }

  /** `If` only removes: whatever it keeps was a successful input. */
  lemma IfKeepsSuccess<T>(input: Option<T>, p: T -> bool)
    ensures ReturnSuccess(If(input, p)) ==> ReturnSuccess(input)
  {
  }
}
