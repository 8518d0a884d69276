/** result.h and error.h: the library's error-or-value result and its
    catch_ check, which asks whether the stored error is of a given type or
    of a type derived from it. */
module CoreResult {

  /** error_type: the values of the enumeration. */
  newtype ErrorType = x: int | 0 <= x <= 9

  const None: ErrorType := 0
  const HttpError: ErrorType := 1
  const EntityTooLargeError: ErrorType := 2
  const FileDoesNotExistError: ErrorType := 3
  const PermissionDenied: ErrorType := 4
  const NotFound: ErrorType := 5
  const InternalServerError: ErrorType := 6
  const SuspiciousOperation: ErrorType := 7
  const DisallowedHost: ErrorType := 8
  const DisallowedRedirect: ErrorType := 9

  /** The ranges of the HttpError-based and SuspiciousOperation-based types. */
  const HttpLower: ErrorType := 2
  const HttpUpper: ErrorType := 7
  const SoLower: ErrorType := 8
  const SoUpper: ErrorType := 9

  /** The declared hierarchy: 2..7 derive from HttpError, 8..9 from
      SuspiciousOperation (itself an HttpError), HttpError and None from
      nothing. */
  function Parent(t: ErrorType): (p: ErrorType)
  {
    if HttpLower <= t <= HttpUpper then HttpError
    else if SoLower <= t <= SoUpper then SuspiciousOperation
    else None
  }

  /** t is e or derives from e, following the hierarchy upwards (it is two
      levels deep). */
  predicate IsA(t: ErrorType, e: ErrorType) {
    t == e ||
    (Parent(t) != None && Parent(t) == e) ||
    (Parent(t) != None && Parent(Parent(t)) != None && Parent(Parent(t)) == e)
  }

  /** Result<ValueT>: an error (its type is all catch_ reads), a value, and
      whether it stands for a null pointer. */
  datatype Result<T> = Result(err: ErrorType, value: T, isNullptr: bool)

  /** Result(ValueT data). */
  function FromValue<T>(data: T): (r: Result<T>)
    ensures r.err == None && r.value == data && !r.isNullptr
    ensures IsSet(r) && forall e :: !Catch(r, e)
  {
    Result(None, data, false)
  }

  /** Result(const Error& err); the value is the type's default, given here. */
  function FromError<T>(err: ErrorType, defaultValue: T): (r: Result<T>)
    ensures r.err == err && !r.isNullptr
    ensures IsSet(r)
    ensures forall e :: Catch(r, e) <==> err != None && IsA(err, e)
    ensures err != None ==> Catch(r, err) && Catch(r, HttpError)
  {
    Result(err, defaultValue, false)
  }

  /** Result::null(). */
  function Null<T>(defaultValue: T): (r: Result<T>)
    ensures r.err == None && r.isNullptr
    ensures !IsSet(r) && forall e :: !Catch(r, e)
  {
    Result(None, defaultValue, true)
  }

  /** explicit operator bool: the result is not the null one. */
  function IsSet<T>(r: Result<T>): (b: bool)
    ensures b <==> !r.isNullptr
  {
    !r.isNullptr
  }

  /** A result that holds no error is one of two: the result built from its
      value, which converts to true, or the null result, which converts to
      false. */
  lemma ErrorFreeResults<T>(r: Result<T>)
    ensures r.err == None ==> (IsSet(r) <==> r == FromValue(r.value))
    ensures r.err == None ==> (!IsSet(r) <==> r == Null(r.value))
  {
  }

  /** _check_base. */
  function CheckBase<T>(r: Result<T>, base: ErrorType, expected: ErrorType): bool {
    expected == base || r.err == expected
  }

  /** _check_nested. */
  function CheckNested<T>(r: Result<T>, superBase: ErrorType, base: ErrorType, expected: ErrorType): bool {
    expected == superBase || CheckBase(r, base, expected)
  }

  /** catch_(expected): a SuspiciousOperation-based error is caught by its
      own type, SuspiciousOperation and HttpError; another HttpError-based
      one by its own type and HttpError; any other error by HttpError only;
      no error is never caught. */
  function Catch<T>(r: Result<T>, expected: ErrorType): (b: bool)
    ensures b <==> r.err != None && IsA(r.err, expected)
  {
    if SoLower <= r.err <= SoUpper then
      r.err != None && CheckNested(r, HttpError, SuspiciousOperation, expected)
    else if HttpLower <= r.err <= HttpUpper then
      r.err != None && CheckBase(r, HttpError, expected)
    else
      r.err != None && expected == HttpError
  }

  /** The default argument HttpError catches every error. */
  lemma CatchHttpError<T>(r: Result<T>)
    ensures Catch(r, HttpError) <==> r.err != None
  {
  }

  /** A value or a null result holds no error, so nothing catches it. */
  lemma CatchNothing<T>(data: T, expected: ErrorType)
    ensures !Catch(FromValue(data), expected) && !Catch(Null(data), expected)
    ensures IsSet(FromValue(data)) && !IsSet(Null(data))
  {
  }

  /** forward<NewType>(): the same error in a result of another type. */
  function Forward<T, U>(r: Result<T>, defaultValue: U): (f: Result<U>)
    ensures f.err == r.err && !f.isNullptr
    ensures forall e :: Catch(f, e) == Catch(r, e)
  {
    Result(r.err, defaultValue, false)
  }
}
