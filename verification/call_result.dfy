/** The outcome record of one callable run by the fan-out helpers: a throwable
    and result data, either of which may be null. */
module CallResult {
  import opened Wrappers
  import opened Throwables

  datatype CallResult<R> = CallResult(throwable: Option<Throwable>, resultData: Option<R>)

  /** `new CallResult()`: both fields null. */
  function Empty<R>(): CallResult<R> {
    CallResult(None, None)
  }

  /** Consumers test `getThrowable() != null`, nothing else. */
  predicate IsFailure<R>(c: CallResult<R>) {
    c.throwable.Some?
  }

  function SetThrowable<R>(c: CallResult<R>, t: Option<Throwable>): (r: CallResult<R>)
    ensures r.throwable == t
    ensures r.resultData == c.resultData
  {
    c.(throwable := t)
  }

  function SetResultData<R>(c: CallResult<R>, d: Option<R>): (r: CallResult<R>)
    ensures r.resultData == d
    ensures r.throwable == c.throwable
  {
    c.(resultData := d)
  }

  /** A failure outcome: the given throwable and no data. */
  function NewFailResult<R>(t: Option<Throwable>): (r: CallResult<R>)
    ensures r.throwable == t && r.resultData == None
    ensures IsFailure(r) <==> t.Some?
  {
    SetThrowable(Empty(), t)
  }

  /** A success outcome: the given data, which may be null, and no throwable. */
  function NewSuccessResult<R>(d: Option<R>): (r: CallResult<R>)
    ensures r.resultData == d && r.throwable == None
    ensures !IsFailure(r)
  {
    SetResultData(Empty(), d)
  }

  /** A fail result and a success result coincide exactly when both carry
      null: `newFailResult(null)` reads as a successful null. */
  lemma FailMeetsSuccessOnlyAtNull<R>(t: Option<Throwable>, d: Option<R>)
    ensures NewFailResult<R>(t) == NewSuccessResult(d) <==> t == None && d == None
  {
  }

  /** The two setters act on disjoint fields, so their order does not matter. */
  lemma SettersCommute<R>(c: CallResult<R>, t: Option<Throwable>, d: Option<R>)
    ensures SetResultData(SetThrowable(c, t), d) == SetThrowable(SetResultData(c, d), t)
  {
  }
}
