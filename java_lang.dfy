/** The parts of the Java runtime whose behaviour shows through the controller's responses:
    nullable strings, string concatenation, the exceptions the handlers raise and catch,
    and the HTTP status codes they answer with. */
module JavaLang {

  /** A Java `String` reference, which may be `null`. */
  datatype JString = Null | Str(chars: string)

  /** Java's `prefix + s`: a `null` reference is rendered as the text "null". */
  function Concat(prefix: string, s: JString): (r: string)
    ensures |r| >= |prefix| && r[..|prefix|] == prefix
  {
    match s
    case Null => prefix + "null"
    case Str(chars) => prefix + chars
  }

  /** The exceptions that can arise inside a handler's `try` block. `IllegalArgumentException`
      is thrown by `ThreadLocalRandom.nextInt(origin, bound)` when `origin >= bound`. */
  datatype JavaException =
    | InterruptedException(message: JString)
    | IllegalArgumentException
    | RuntimeException(message: JString)

  /** Whether a `catch (RuntimeException e)` clause catches the exception: Java's
      `IllegalArgumentException` is a subclass of `RuntimeException`, `InterruptedException` is not. */
  predicate IsRuntimeException(e: JavaException) {
    e.IllegalArgumentException? || e.RuntimeException?
  }

  /** `HttpStatus.OK`, `HttpStatus.INTERNAL_SERVER_ERROR`, `HttpStatus.SERVICE_UNAVAILABLE`. */
  const Ok: int := 200
  const InternalServerError: int := 500
  const ServiceUnavailable: int := 503
}
