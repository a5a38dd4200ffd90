/** Option and Result values standing for Java's nullable references and thrown exceptions. */
module Wrappers {

  /** A value that may be absent: `None` models a Java `null`. */
  datatype Option<+T> = None | Some(value: T) {
    function GetOr(default: T): T {
      match this
      case Some(v) => v
      case None => default
    }
  }

  /** The outcome of an operation that may throw: `Failure` names the exception. */
  datatype Result<+T, +E> = Success(value: T) | Failure(error: E)

  /** The smaller of two integers, as `Math.min`. */
  function Min(a: int, b: int): int {
    if a <= b then a else b
  }

  /** `prefix` put in front of a successful list result; a failure passes through unchanged. */
  function Prefixed<T, E>(prefix: seq<T>, r: Result<seq<T>, E>): Result<seq<T>, E> {
    match r
    case Success(rest) => Success(prefix + rest)
    case Failure(e) => Failure(e)
  }

  lemma PrefixedNil<T, E>(r: Result<seq<T>, E>)
    ensures Prefixed([], r) == r
  {
    match r
    case Success(rest) => assert [] + rest == rest;
    case Failure(_) =>
  }

  lemma PrefixedPrefixed<T, E>(a: seq<T>, b: seq<T>, r: Result<seq<T>, E>)
    ensures Prefixed(a, Prefixed(b, r)) == Prefixed(a + b, r)
  {
    match r
    case Success(rest) => assert a + (b + rest) == (a + b) + rest;
    case Failure(_) =>
  }

  /** Two list results one after the other: the first failure wins, else the lists are concatenated. */
  function Concatenated<T, E>(r1: Result<seq<T>, E>, r2: Result<seq<T>, E>): Result<seq<T>, E> {
    match r1
    case Failure(e) => Failure(e)
    case Success(a) => Prefixed(a, r2)
  }

  lemma ConcatenatedAssoc<T, E>(r1: Result<seq<T>, E>, r2: Result<seq<T>, E>, r3: Result<seq<T>, E>)
    ensures Concatenated(Concatenated(r1, r2), r3) == Concatenated(r1, Concatenated(r2, r3))
  {
    match r1
    case Failure(_) =>
    case Success(a) =>
      match r2
      case Failure(_) =>
      case Success(b) => PrefixedPrefixed(a, b, r3);
  }

  lemma ConcatenatedNil<T, E>(r: Result<seq<T>, E>)
    ensures Concatenated(r, Success([])) == r
    ensures Concatenated(Success([]), r) == r
  {
    PrefixedNil(r);
    match r
    case Failure(_) =>
    case Success(a) => assert a + [] == a;
  }
}

