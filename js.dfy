/** JavaScript values the application's logic relies on: nullable values, settled
    promises, truthiness of strings, number-to-string conversion and `Array.join`. */
module Js {

  /** A value that may be `null` (or `undefined`). */
  datatype Option<+T> = None | Some(value: T)

  /** How an awaited promise settles: with a value, or by throwing an `Error`
      whose `message` is given (the empty string stands for a missing message). */
  datatype Settled<+T> = Resolved(value: T) | Rejected(message: string)

  /** JavaScript truthiness of a `string | null`: `null` and `""` are falsy. */
  predicate Truthy(s: Option<string>) {
    s.Some? && s.value != ""
  }

  /** `a || b` on two values of type `string | null`. */
  function Or(a: Option<string>, b: Option<string>): Option<string> {
    if Truthy(a) then a else b
  }

  /** On values that are never the empty string, `||` is "the first one that is not null". */
  lemma OrOfNonEmpty(a: Option<string>, b: Option<string>)
    requires a.Some? ==> a.value != ""
    ensures Or(a, b) == if a.Some? then a else b
  {
  }

  /** 1 for a condition that holds, 0 otherwise: how much a conditional
      `push` or `counter++` adds. */
  function Count(present: bool): nat {
    if present then 1 else 0
  }

  /** The decimal digit for `d`. */
  function DigitChar(d: nat): (c: char)
    requires d < 10
    ensures '0' <= c <= '9' && c as int - '0' as int == d
  {
    "0123456789"[d]
  }

  /** `${n}` for a non-negative integer: its decimal digits, most significant first. */
  function NatToString(n: nat): (s: string)
    ensures |s| > 0
    ensures forall i :: 0 <= i < |s| ==> '0' <= s[i] <= '9'
    ensures n >= 10 ==> s[0] != '0'
    ensures |s| == 1 <==> n < 10
  {
    if n < 10 then [DigitChar(n)] else NatToString(n / 10) + [DigitChar(n % 10)]
  }

  /** The value of a string of decimal digits. */
  function DecimalValue(s: string): nat
    requires forall i :: 0 <= i < |s| ==> '0' <= s[i] <= '9'
  {
    if s == [] then 0 else DecimalValue(s[..|s| - 1]) * 10 + (s[|s| - 1] as int - '0' as int)
  }

  /** Reading the digits back gives the number: the indices written into a
      prompt name exactly the numbers they were made from. */
  lemma {:induction false} NatToStringRoundTrip(n: nat)
    ensures DecimalValue(NatToString(n)) == n
  {
    if n >= 10 {
      var s := NatToString(n);
      assert s[..|s| - 1] == NatToString(n / 10);
      NatToStringRoundTrip(n / 10);
    }
  }

  /** Distinct numbers are written differently. */
  lemma NatToStringInjective(m: nat, n: nat)
    requires NatToString(m) == NatToString(n)
    ensures m == n
  {
    NatToStringRoundTrip(m);
    NatToStringRoundTrip(n);
  }

  /** `items.join(sep)`. */
  function Join(items: seq<string>, sep: string): string {
    if |items| == 0 then ""
    else if |items| == 1 then items[0]
    else Join(items[..|items| - 1], sep) + sep + items[|items| - 1]
  }
}
