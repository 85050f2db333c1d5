/**
 * The result type the browser_use framework expects from a custom action,
 * and the abstract outcome of one awaited browser or filesystem step.
 */
module ActionResults {
  import opened Wrappers

  /**
   * browser_use's ActionResult, reduced to the three fields the custom
   * actions set: the summary shown to the agent, the note kept in its
   * long-term memory, and the error message.
   */
  datatype ActionResult = ActionResult(
    extractedContent: Option<string>,
    longTermMemory: Option<string>,
    error: Option<string>)
  {
    /** A content result: a summary and no error. */
    predicate IsContent() {
      error.None? && extractedContent.Some?
    }

    /** An error result: an error message and neither summary nor memory. */
    predicate IsError() {
      error.Some? && extractedContent.None? && longTermMemory.None?
    }

    /** Every action returns exactly one of the two kinds. */
    predicate ExactlyOneKind() {
      IsContent() != IsError()
    }
  }

  function Content(text: string, memory: string): (r: ActionResult)
    ensures r.IsContent() && !r.IsError()
  {
    ActionResult(Some(text), Some(memory), None)
  }

  function Failure(message: string): (r: ActionResult)
    ensures r.IsError() && !r.IsContent()
  {
    ActionResult(None, None, Some(message))
  }

  /**
   * Python exceptions that reach the actions' `except` clauses: an
   * `asyncio.TimeoutError` or any other `Exception`, with its `str(e)`.
   */
  datatype ExceptionKind = AsyncTimeout | OtherException
  datatype Exception = Exception(kind: ExceptionKind, text: string)

  /** The outcome of one awaited step: a value, or an exception it raised. */
  datatype Step<T> = Done(value: T) | Raised(exc: Exception)

  function Failed<T>(s: Step<T>): Option<Exception> {
    match s
    case Done(_) => None
    case Raised(e) => Some(e)
  }

  /** The exception of the first step in `steps` that raised, if any. */
  function FirstFailure(steps: seq<Option<Exception>>): (r: Option<Exception>)
    ensures r.None? <==> forall k :: 0 <= k < |steps| ==> steps[k].None?
    ensures r.Some? ==> exists k :: 0 <= k < |steps| && steps[k] == r &&
                                    forall j :: 0 <= j < k ==> steps[j].None?
  {
    if steps == [] then None
    else if steps[0].Some? then steps[0]
    else
      var r := FirstFailure(steps[1..]);
      assert forall k :: 0 < k < |steps| ==> steps[k] == steps[1..][k - 1];
      r
  }

  /** The first failure is the one at `k` when every step before `k` succeeded. */
  lemma FirstFailureAt(steps: seq<Option<Exception>>, k: nat)
    requires k < |steps| && steps[k].Some?
    requires forall j :: 0 <= j < k ==> steps[j].None?
    ensures FirstFailure(steps) == steps[k]
  {
    var r := FirstFailure(steps);
    var i :| 0 <= i < |steps| && steps[i] == r && forall j :: 0 <= j < i ==> steps[j].None?;
    assert i == k;
  }
}
