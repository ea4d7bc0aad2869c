/** The result envelope every service operation returns: OperationResult and
    its generic subclass OperationResult<T>. */
module OperationResults {
  import opened Basics

  // Error codes, spelled exactly as the services spell them.
  const UnknownUserCode := "UknownUser"
  const InvalidDataCode := "InvalidData"
  const NotUniqueCode := "NotUnique"
  const NotFoundCode := "NotFound"
  const ForbiddenCode := "Forbidden"

  /** OperationResult. All three properties are init-only, so an immutable
      datatype value renders the class faithfully. */
  datatype OperationResult = OperationResult(success: bool, errorMessage: Option<string>, errorCode: Option<string>)

  /** OperationResult<T>: the same three properties plus Data, where `None`
      is `default(T)` (null, for the reference types the services use). */
  datatype TypedResult<T> = TypedResult(success: bool, errorMessage: Option<string>, errorCode: Option<string>, data: Option<T>)
  {
    /** The same object seen through its base class. */
    function Envelope(): OperationResult
    {
      OperationResult(success, errorMessage, errorCode)
    }
  }

  /** What every result built by the factories satisfies: a success carries
      neither message nor code, and a failure always carries a message. */
  predicate Consistent(r: OperationResult)
  {
    && (r.success <==> r.errorMessage.None?)
    && (r.success ==> r.errorCode.None?)
  }

  /** OperationResult.Ok(). */
  function Ok(): (r: OperationResult)
    ensures r.success && Consistent(r)
  {
    OperationResult(true, None, None)
  }

  /** OperationResult.Fail(message, code = null). */
  function Fail(message: string, code: Option<string> := None): (r: OperationResult)
    ensures !r.success && Consistent(r)
    ensures r.errorMessage == Some(message) && r.errorCode == code
  {
    OperationResult(false, Some(message), code)
  }

  /** OperationResult<T>.Ok(data). */
  function TypedOk<T>(data: T): (r: TypedResult<T>)
    ensures r.success && Consistent(r.Envelope())
    ensures r.data == Some(data)
  {
    TypedResult(true, None, None, Some(data))
  }

  /** OperationResult<T>.Fail(errorMessage, errorCode = null). */
  function TypedFail<T>(message: string, code: Option<string> := None): (r: TypedResult<T>)
    ensures !r.success && Consistent(r.Envelope())
    ensures r.errorMessage == Some(message) && r.errorCode == code
    ensures r.data.None?
  {
    TypedResult(false, Some(message), code, None)
  }

  /** OperationResult<T>.FromOperationResult: copies the three base properties
      and leaves Data at its default. */
  function FromOperationResult<T>(r: OperationResult): (t: TypedResult<T>)
    ensures t.Envelope() == r
    ensures t.data.None?
    ensures Consistent(r) ==> Consistent(t.Envelope())
  {
    TypedResult(r.success, r.errorMessage, r.errorCode, None)
  }

  /** Conversion loses nothing: a data-less typed result is rebuilt exactly
      from its base-class view. */
  lemma FromOperationResultRoundTrip<T>(t: TypedResult<T>)
    requires t.data.None?
    ensures FromOperationResult<T>(t.Envelope()) == t
  {
  }
}
