/**
 * Validation of the `nums` query parameter, as the `/mean` handler does it:
 * reject a missing or empty parameter, split it on commas, convert each piece
 * in order, and stop at the first piece that is not a number.
 *
 * JavaScript's `parseFloat` followed by `isNaN` is not modelled internally: it
 * is the parameter `parse`, a partial function from a piece of text to a
 * number (`None` where `parseFloat` yields NaN).
 */
module Validation {
  import opened Wrappers
  import opened Tokens

  datatype ValidationError =
    | MissingInput                 // `nums` absent or empty
    | InvalidNumber(token: string) // the first piece that did not parse

  /** The `error` text of the 400 response for each failure. */
  function Message(e: ValidationError): string
  {
    match e
    case MissingInput => "nums are required"
    case InvalidNumber(t) => t + " is not a number"
  }

  /** Distinct failures produce distinct messages: the message names the offending token. */
  lemma MessageInjective(a: ValidationError, b: ValidationError)
    ensures Message(a) == Message(b) ==> a == b
  {
    match (a, b)
    case (InvalidNumber(s), InvalidNumber(t)) =>
      if Message(a) == Message(b) {
        assert |s| == |t|;
        assert s == Message(a)[..|s|];
        assert t == Message(b)[..|t|];
      }
    case (MissingInput, InvalidNumber(t)) =>
      MissingDiffersFromInvalid(t);
    case (InvalidNumber(s), MissingInput) =>
      MissingDiffersFromInvalid(s);
    case (MissingInput, MissingInput) =>
  }

  lemma MissingDiffersFromInvalid(t: string)
    ensures Message(MissingInput) != Message(InvalidNumber(t))
  {
    if |t| == 1 {
      assert Message(InvalidNumber(t))[1] == ' ' != Message(MissingInput)[1];
    }
  }

  /** Reference definition: convert the pieces left to right, failing on the first bad one. */
  function ParseTokens(tokens: seq<string>, parse: string -> Option<real>): (r: Result<seq<real>, ValidationError>)
    ensures r.Failure? ==> r.error.InvalidNumber? && r.error.token in tokens
  {
    if tokens == [] then Success([])
    else
      match parse(tokens[0])
      case None => Failure(InvalidNumber(tokens[0]))
      case Some(x) =>
        match ParseTokens(tokens[1..], parse)
        case Failure(e) => Failure(e)
        case Success(xs) => Success([x] + xs)
  }

  /** Reference definition of the whole validation step. */
  function Validate(query: Option<string>, parse: string -> Option<real>): (r: Result<seq<real>, ValidationError>)
    ensures r == Failure(MissingInput) <==> query.None? || query.value == []
  {
    if query.None? || query.value == [] then Failure(MissingInput)
    else ParseTokens(Split(query.value), parse)
  }

  /** When every piece parses, the result holds one number per piece, in order. */
  lemma {:induction false} ParseTokensAll(tokens: seq<string>, parse: string -> Option<real>, xs: seq<real>)
    requires |xs| == |tokens|
    requires forall i :: 0 <= i < |tokens| ==> parse(tokens[i]) == Some(xs[i])
    ensures ParseTokens(tokens, parse) == Success(xs)
  {
    if tokens != [] {
      ParseTokensAll(tokens[1..], parse, xs[1..]);
      assert xs == [xs[0]] + xs[1..];
    }
  }

  /** When some piece fails, the failure names the first such piece. */
  lemma {:induction false} ParseTokensFirstFailure(tokens: seq<string>, parse: string -> Option<real>, k: nat)
    requires k < |tokens|
    requires forall i :: 0 <= i < k ==> parse(tokens[i]).Some?
    requires parse(tokens[k]).None?
    ensures ParseTokens(tokens, parse) == Failure(InvalidNumber(tokens[k]))
  {
    if k > 0 {
      ParseTokensFirstFailure(tokens[1..], parse, k - 1);
    }
  }

  /** Conversely, a success means every piece parsed, to the number at its own position. */
  lemma {:induction false} ParseTokensSuccess(tokens: seq<string>, parse: string -> Option<real>)
    requires ParseTokens(tokens, parse).Success?
    ensures |ParseTokens(tokens, parse).value| == |tokens|
    ensures forall i :: 0 <= i < |tokens| ==> parse(tokens[i]) == Some(ParseTokens(tokens, parse).value[i])
  {
    if tokens != [] {
      ParseTokensSuccess(tokens[1..], parse);
      var xs := ParseTokens(tokens[1..], parse).value;
      forall i | 1 <= i < |tokens|
        ensures parse(tokens[i]) == Some(ParseTokens(tokens, parse).value[i])
      {
        assert tokens[1..][i - 1] == tokens[i];
      }
    }
  }

  /**
   * The validation loop of the `/mean` handler: the parameter must be present
   * and non-empty; then each comma-separated piece is converted in order and
   * appended, and the first piece that does not convert ends the loop with an
   * error naming it.
   */
  method ValidateNums(query: Option<string>, parse: string -> Option<real>)
    returns (r: Result<seq<real>, ValidationError>)
    ensures r == Validate(query, parse)
  {
    if query.None? || query.value == [] {
      return Failure(MissingInput);
    }
    var inputs := Split(query.value);
    var nums: seq<real> := [];
    for i := 0 to |inputs|
      invariant |nums| == i
      invariant forall j :: 0 <= j < i ==> parse(inputs[j]) == Some(nums[j])
    {
      var parsed := parse(inputs[i]);
      if parsed.None? {
        ParseTokensFirstFailure(inputs, parse, i);
        return Failure(InvalidNumber(inputs[i]));
      }
      nums := nums + [parsed.value];
    }
    ParseTokensAll(inputs, parse, nums);
    return Success(nums);
  }
}
