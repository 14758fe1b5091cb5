/** Values shared by the whole model: optional values, the exceptions that can
    escape an operation, and the few Python built-ins whose exact behaviour the
    ingestion code relies on (slicing, substring test, `str.join`, `2 ** n`). */
module Common {

  datatype Option<+T> = None | Some(value: T)

  /** The exceptions the modelled code raises or lets escape. */
  datatype Exception =
    | HttpError(status: int)       // googleapiclient HttpError with its response status
    | TimeoutError                 // raised by the integrations copy of robust_request when attempts run out
    | MaxRetriesExceeded           // plain Exception("Max retries exceeded") of the connector copy
    | ForeignError(name: string)   // any other exception raised inside a request
    | KeyError(key: string)        // a dictionary lookup of a missing key
    | TypeError                    // e.g. strptime applied to a missing (None) header
    | ValueError                   // e.g. strptime applied to text that does not match the format
    | DatabaseError                // mysql.connector's Error

  /** A call that either returns a value or raises. */
  datatype Result<+T> = Ok(value: T) | Raised(error: Exception)

  function Min(a: int, b: int): int { if a <= b then a else b }

  function Max(a: int, b: int): int { if a >= b then a else b }

  /** Python's slice `s[:n]`, including its reading of a negative `n` as "all but the last -n". */
  function Take<T>(s: seq<T>, n: int): (r: seq<T>)
    ensures r <= s
    ensures n >= 0 ==> |r| == Min(n, |s|)
    ensures n < 0 ==> |r| == Max(0, |s| + n)
  {
    if n >= 0 then (if n <= |s| then s[..n] else s)
    else if |s| + n > 0 then s[..|s| + n] else []
  }

  /** Python's `sub in s` for strings. */
  predicate Contains(s: string, sub: string)
    decreases |s|
  {
    sub <= s || (|s| > 0 && Contains(s[1..], sub))
  }

  /** Python's `sep.join(parts)`. */
  function Join(sep: string, parts: seq<string>): string
    decreases |parts|
  {
    if |parts| == 0 then ""
    else if |parts| == 1 then parts[0]
    else parts[0] + sep + Join(sep, parts[1..])
  }

  /** Python's `2 ** n` for a non-negative exponent. */
  function Pow2(n: nat): nat
    decreases n
  {
    if n == 0 then 1 else 2 * Pow2(n - 1)
  }

  /** The number of occurrences of character `c` in `s`. */
  function CountChar(s: string, c: char): nat
    decreases |s|
  {
    if |s| == 0 then 0 else (if s[0] == c then 1 else 0) + CountChar(s[1..], c)
  }

  lemma {:induction false} CountCharConcat(a: string, b: string, c: char)
    ensures CountChar(a + b, c) == CountChar(a, c) + CountChar(b, c)
    decreases |a|
  {
    if |a| == 0 {
      assert a + b == b;
    } else {
      assert (a + b)[1..] == a[1..] + b;
      CountCharConcat(a[1..], b, c);
    }
  }

  lemma {:induction false} CountCharAbsent(s: string, c: char)
    requires c !in s
    ensures CountChar(s, c) == 0
    decreases |s|
  {
    if |s| > 0 {
      assert s == [s[0]] + s[1..];
      CountCharAbsent(s[1..], c);
    }
  }

  lemma {:induction false} ShorterNeverContains(s: string, sub: string)
    requires |s| < |sub|
    ensures !Contains(s, sub)
    decreases |s|
  {
    if |s| > 0 {
      ShorterNeverContains(s[1..], sub);
    }
  }
}
