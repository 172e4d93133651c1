/**
 * The `Error` value type: an error code paired with a message.  Only the
 * code takes part in truth tests and comparisons; the message is carried
 * along for logging.
 */
module Errors {

  /** The error codes, in declaration order. */
  datatype ErrorCode = OK | ERROR | DISCONNECT | TIMEOUT | BIND_FAIL

  /** The integer an unscoped enumerator converts to: its position, from 0. */
  function Ordinal(c: ErrorCode): (r: nat)
    ensures r < 5
    ensures r == 0 <==> c == OK
  {
    match c
    case OK => 0
    case ERROR => 1
    case DISCONNECT => 2
    case TIMEOUT => 3
    case BIND_FAIL => 4
  }

  /** Distinct codes convert to distinct integers. */
  lemma OrdinalInjective(a: ErrorCode, b: ErrorCode)
    ensures Ordinal(a) == Ordinal(b) <==> a == b
  {
  }

  datatype Error = Error(code: ErrorCode, message: string)

  /** `Error(ErrorCode code = OK, const char *message = "")`. */
  function FromCode(code: ErrorCode := OK, message: string := ""): (r: Error)
    ensures r.code == code && r.message == message
  {
    Error(code, message)
  }

  /** `Error(const char *message, ErrorCode code = ERROR)`. */
  function FromMessage(message: string, code: ErrorCode := ERROR): (r: Error)
    ensures r.code == code && r.message == message
  {
    Error(code, message)
  }

  /** `operator bool`: the code converted to bool, i.e. its integer is not zero. */
  predicate IsSet(e: Error)
  {
    Ordinal(e.code) != 0
  }

  /** `operator==(const Error&)`: the codes agree as integers. */
  predicate Same(a: Error, b: Error)
  {
    Ordinal(a.code) == Ordinal(b.code)
  }

  /** `operator!=(const Error&)`. */
  predicate Differs(a: Error, b: Error)
  {
    Ordinal(a.code) != Ordinal(b.code)
  }

  /** `operator==(const ErrorCode&)`. */
  predicate Is(e: Error, c: ErrorCode)
  {
    Ordinal(e.code) == Ordinal(c)
  }

  /** `operator!=(const ErrorCode&)`. */
  predicate IsNot(e: Error, c: ErrorCode)
  {
    Ordinal(e.code) != Ordinal(c)
  }

  /** An error is truthy exactly when its code is not `OK`, whatever its message. */
  lemma TruthIsNotOk(e: Error)
    ensures IsSet(e) <==> e.code != OK
    ensures IsSet(e) <==> IsNot(e, OK)
  {
  }

  /**
   * Comparing two errors compares their codes and ignores their messages,
   * and `!=` is exactly the negation of `==`.
   */
  lemma SameMeansSameCode(a: Error, b: Error)
    ensures Same(a, b) <==> a.code == b.code
    ensures Differs(a, b) <==> !Same(a, b)
    ensures Same(a, b) <==> Is(a, b.code)
  {
    OrdinalInjective(a.code, b.code);
  }

  /** Errors that differ only in their message compare equal. */
  lemma MessageIgnored(c: ErrorCode, m1: string, m2: string)
    ensures Same(Error(c, m1), Error(c, m2))
    ensures !Differs(Error(c, m1), Error(c, m2))
  {
  }

  /** `==` on errors is an equivalence relation. */
  lemma SameIsEquivalence(a: Error, b: Error, c: Error)
    ensures Same(a, a)
    ensures Same(a, b) ==> Same(b, a)
    ensures Same(a, b) && Same(b, c) ==> Same(a, c)
  {
  }

  /** Comparing against a code: `==` holds iff the stored code is that code, `!=` is its negation. */
  lemma IsMeansStoredCode(e: Error, c: ErrorCode)
    ensures Is(e, c) <==> e.code == c
    ensures IsNot(e, c) <==> !Is(e, c)
  {
    OrdinalInjective(e.code, c);
  }

  /**
   * The defaults: a default-constructed error is `OK` with an empty message
   * and tests false; an error built from a message alone is `ERROR` and tests
   * true.
   */
  lemma Defaults(m: string)
    ensures FromCode() == Error(OK, "") && !IsSet(FromCode())
    ensures FromMessage(m) == Error(ERROR, m) && IsSet(FromMessage(m))
    ensures forall c: ErrorCode :: IsSet(FromCode(c)) <==> c != OK
  {
  }
}
