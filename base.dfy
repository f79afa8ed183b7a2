/**
 * Results and error kinds shared by the hours-configuration modules.
 * The Java code signals every rejection with an exception; here each exception
 * becomes a Failure carrying the kind of rejection.
 */
module Base {

  datatype Option<+T> = None | Some(value: T)

  /** Why a configuration was rejected. All kinds but IllegalState are IllegalArgumentExceptions in the source. */
  datatype Error =
    | Malformed            // the text matches none of the day grammars
    | FieldOutOfRange      // an hour or minute outside its clock field (Joda's IllegalFieldValueException)
    | MidnightWithMinutes  // an end hour of 00 or 24 with non-zero minutes
    | EndBeforeStart       // an interval whose end precedes its start
    | WrongLength          // a week that does not have exactly 7 entries
    | MissingDays          // a frontend entry without its "days" key
    | MissingRange         // a frontend entry without its "range" key
    | MalformedRange       // a frontend range that is neither "*" nor a single interval
    | Overlap              // two frontend ranges overlap on the same day
    | IllegalState         // an IllegalStateException: a case the validator should have excluded
    | DayOutOfRange        // an IndexOutOfBoundsException: a frontend day number outside 1..7

  datatype Result<+T> = Success(value: T) | Failure(error: Error) {
    predicate IsFailure() { Failure? }

    function PropagateFailure<U>(): Result<U>
      requires Failure?
    {
      Failure(error)
    }

    function Extract(): T
      requires Success?
    {
      value
    }
  }

  /** The outcome of a void method that may throw. */
  datatype Outcome = Pass | Fail(error: Error)

  /** n copies of x. */
  function Repeat<T>(x: T, n: nat): (r: seq<T>)
    ensures |r| == n && forall k :: 0 <= k < n ==> r[k] == x
  {
    if n == 0 then [] else [x] + Repeat(x, n - 1)
  }

  /** How many times x occurs in s. */
  function Count<T(==)>(s: seq<T>, x: T): nat
  {
    if s == [] then 0 else (if s[0] == x then 1 else 0) + Count(s[1..], x)
  }

  /** Count is the multiplicity of x in s. */
  lemma {:induction false} CountIsMultiplicity<T>(s: seq<T>, x: T)
    ensures Count(s, x) == multiset(s)[x]
  {
    if s != [] {
      CountIsMultiplicity(s[1..], x);
      assert s == [s[0]] + s[1..];
      assert multiset(s) == multiset{s[0]} + multiset(s[1..]);
    }
  }

  lemma {:induction false} CountConcat<T>(a: seq<T>, b: seq<T>, x: T)
    ensures Count(a + b, x) == Count(a, x) + Count(b, x)
  {
    if a == [] {
      assert a + b == b;
    } else {
      assert (a + b)[1..] == a[1..] + b;
      CountConcat(a[1..], b, x);
    }
  }

  /** Repeat holds x exactly n times and nothing else. */
  lemma {:induction false} RepeatCount<T>(x: T, n: nat, y: T)
    ensures Count(Repeat(x, n), y) == if x == y then n else 0
  {
    if n > 0 {
      RepeatCount(x, n - 1, y);
      assert Repeat(x, n)[1..] == Repeat(x, n - 1);
    }
  }
}
