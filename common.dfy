/** Shared vocabulary of the backend model: identifiers, optional values,
    request failures, and the bits of PHP and Laravel semantics that the
    controllers lean on (truthiness, the `required` rule, integers in strings). */
module Common {

  type UserId = nat
  type ConversationId = nat
  type MessageId = nat
  type BookId = nat
  type CommentId = nat

  /** A logical clock reading standing in for `created_at` / `updated_at`. */
  type Timestamp = nat

  /** A nullable column or an optional request input. */
  datatype Option<+T> = None | Some(value: T)

  /** How a request ends when it does not succeed, by the response it produces. */
  datatype Failure =
    | NotFound         // 404 raised by findOrFail
    | Forbidden        // 403 {"error": "Unauthorized"}
    | Unprocessable    // 422 raised by $request->validate
    | BadRequest       // 400 {"error": "book_id required"}
    | FileNotFound     // 404 {"error": "File not found."}
    | FileNotOnServer  // 404 {"error": "File not found on server."}

  datatype Result<+T> = Ok(value: T) | Err(failure: Failure)

  /** PHP truthiness of a nullable string: null, "" and "0" are falsy. */
  predicate Truthy(s: Option<string>)
  {
    s.Some? && s.value != "" && s.value != "0"
  }

  /** The characters PHP's trim() removes by default. */
  predicate TrimmedAway(c: char)
  {
    c == ' ' || c == '\t' || c == '\n' || c == '\r' || c == '\0' || c == 11 as char
  }

  /** A string that is empty once trimmed. */
  predicate Blank(s: string)
  {
    forall i | 0 <= i < |s| :: TrimmedAway(s[i])
  }

  /** Laravel's `required|string` rule on a string input: present and not blank. */
  predicate Present(s: Option<string>)
  {
    s.Some? && !Blank(s.value)
  }

  predicate IsDigit(c: char)
  {
    '0' <= c <= '9'
  }

  function DigitChar(d: nat): (c: char)
    requires d < 10
    ensures IsDigit(c) && c as int - '0' as int == d
  {
    ('0' as int + d) as char
  }

  /** The decimal representation PHP produces when an integer is concatenated to a string. */
  function NatToString(n: nat): (s: string)
    ensures |s| > 0
    ensures forall i | 0 <= i < |s| :: IsDigit(s[i])
    ensures s[0] == '0' <==> n == 0
    ensures n == 0 ==> s == "0"
  {
    if n < 10 then [DigitChar(n)] else NatToString(n / 10) + [DigitChar(n % 10)]
  }

  predicate AllDigits(s: string)
  {
    forall i | 0 <= i < |s| :: IsDigit(s[i])
  }

  /** The number a string of decimal digits denotes (leading zeros allowed). */
  function DigitsValue(s: string): nat
    requires AllDigits(s)
  {
    if s == [] then 0
    else DigitsValue(s[..|s| - 1]) * 10 + (s[|s| - 1] as int - '0' as int)
  }

  /** Reading back the decimal representation yields the number. */
  lemma {:induction false} NatToStringRoundTrip(n: nat)
    ensures AllDigits(NatToString(n)) && DigitsValue(NatToString(n)) == n
  {
    if n >= 10 {
      NatToStringRoundTrip(n / 10);
      var s := NatToString(n);
      assert s[..|s| - 1] == NatToString(n / 10);
    }
  }

  /** Distinct numbers have distinct decimal representations. */
  lemma NatToStringInjective(m: nat, n: nat)
    requires NatToString(m) == NatToString(n)
    ensures m == n
  {
    NatToStringRoundTrip(m);
    NatToStringRoundTrip(n);
  }
}
