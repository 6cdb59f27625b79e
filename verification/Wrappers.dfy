/** Failure-compatible wrappers shared by every module of the model. */
module Wrappers {

  datatype Option<+T> = None | Some(value: T) {
    function GetOr(default: T): T {
      match this
      case Some(v) => v
      case None => default
    }
  }

  /** What an awaited call can throw: a cancellation (timeout) or any other exception. */
  datatype Exception = TaskCanceled(message: string) | Other(message: string)

  /** What an awaited call to an outside service yields: its value, or the exception it threw. */
  datatype Call<+T> = Returned(value: T) | Raised(exception: Exception)

  /** What a database call or a parse can fail with, or an outside exception nothing catches. */
  datatype Error =
    | FormatError                 // Guid.Parse on a string that is not a GUID
    | InvalidJson                 // a '::jsonb' cast of text that is not JSON
    | DimensionMismatch(got: nat) // a vector of another dimension than the column or the stored vectors
    | NegativeLimit               // LIMIT with a negative count
    | DuplicateKey                // a primary-key violation
    | NullValue(column: string)   // a NOT NULL violation
    | OutOfRange                  // a parameter that does not fit the column type
    | TooLong(column: string)     // a VARCHAR(n) value longer than n characters
    | NulCharacter(column: string) // a text value holding the NUL character, which PostgreSQL rejects
    | NullScore                   // '.Value' of a null score
    | Unhandled(exception: Exception) // an exception of an outside call that escapes

  datatype Result<+T> = Success(value: T) | Failure(error: Error) {
    predicate IsFailure() { Failure? }
    function PropagateFailure<U>(): Result<U>
      requires Failure?
    {
      Failure(error)
    }
    function Extract(): T
      requires Success?
    {
      value
    }
  }

  /** The result of a statement that returns nothing but may fail. */
  datatype Outcome = Pass | Fail(error: Error)

  /** The position of the first failure in a run of attempts, or their number when none fails. */
  function FirstFailure<T>(rs: seq<Result<T>>): (n: nat)
    ensures n <= |rs|
    ensures forall k :: 0 <= k < n ==> rs[k].Success?
    ensures n < |rs| ==> rs[n].Failure?
  {
    if rs == [] || rs[0].Failure? then 0 else 1 + FirstFailure(rs[1..])
  }

  /** The first failure is the one position where every earlier attempt succeeded and this one failed. */
  lemma {:induction false} FirstFailureIs<T>(rs: seq<Result<T>>, n: nat)
    requires n <= |rs| && forall k :: 0 <= k < n ==> rs[k].Success?
    requires n < |rs| ==> rs[n].Failure?
    ensures FirstFailure(rs) == n
  {
    if n > 0 {
      FirstFailureIs(rs[1..], n - 1);
    }
  }

  /** The values of a run of attempts that all succeeded. */
  function Values<T>(rs: seq<Result<T>>): (vs: seq<T>)
    requires forall k :: 0 <= k < |rs| ==> rs[k].Success?
    ensures |vs| == |rs| && forall k :: 0 <= k < |rs| ==> rs[k] == Success(vs[k])
  {
    seq(|rs|, k requires 0 <= k < |rs| => rs[k].value)
  }

  /** One more successful attempt adds its value at the end. */
  lemma ValuesSnoc<T>(rs: seq<Result<T>>, i: nat)
    requires i < |rs| && forall k :: 0 <= k <= i ==> rs[k].Success?
    ensures Values(rs[..i + 1]) == Values(rs[..i]) + [rs[i].value]
  {
    assert rs[..i + 1] == rs[..i] + [rs[i]];
  }

  /** What a run of attempts that stops at its first failure reports. */
  function Through<T>(rs: seq<Result<T>>): (o: Outcome)
    ensures o.Pass? <==> forall k :: 0 <= k < |rs| ==> rs[k].Success?
    ensures o.Fail? ==> o.error == rs[FirstFailure(rs)].error
  {
    var n := FirstFailure(rs);
    if n == |rs| then Pass else Fail(rs[n].error)
  }
}
