/**
 * The `/median` and `/mode` request handlers without the HTTP layer: validate
 * the `nums` parameter, then either answer with the statistic or answer 400
 * with the validation message.
 *
 * `Handle` validates with the loop of the `/mean` handler. The `/median` and
 * `/mode` handlers as written validate with `.map` instead, whose callback's
 * `return` leaves only the callback; `MapHandlerRun` models that pass, and
 * the lemmas after it show that the client gets the same answer as from
 * `Handle`, but that the handler then throws whenever a piece is not a number.
 */
module Endpoints {
  import opened Wrappers
  import opened Tokens
  import opened Validation
  import Median
  import Mode

  datatype Operation = MedianOp | ModeOp

  datatype Value = MedianValue(median: Option<real>) | ModeValue(mode: Mode.ModeResult)

  /** A JSON answer `{operation, value}` or a 400 answer `{error}`. */
  datatype Response = Answer(operation: string, value: Value) | BadRequest(error: string)

  function OperationName(op: Operation): string
  {
    match op
    case MedianOp => "median"
    case ModeOp => "mode"
  }

  /** The statistic a handler computes from the validated numbers. */
  function Statistic(op: Operation, nums: seq<real>): Value
  {
    match op
    case MedianOp => MedianValue(Median.Median(nums))
    case ModeOp => ModeValue(Mode.ModeOf(nums))
  }

  /** The answer a handler gives: the validation message, or the statistic. */
  function Respond(op: Operation, query: Option<string>, parse: string -> Option<real>): Response
  {
    match Validate(query, parse)
    case Failure(e) => BadRequest(Message(e))
    case Success(nums) => Answer(OperationName(op), Statistic(op, nums))
  }

  /** A parameter that passes validation yields at least one number. */
  lemma ValidateNonEmpty(query: Option<string>, parse: string -> Option<real>)
    requires Validate(query, parse).Success?
    ensures |Validate(query, parse).value| >= 1
  {
  }

  /** A handler: validate, then compute the statistic only when validation succeeded. */
  method Handle(op: Operation, query: Option<string>, parse: string -> Option<real>) returns (resp: Response)
    ensures resp == Respond(op, query, parse)
    ensures resp.BadRequest? <==> Validate(query, parse).Failure?
    ensures resp.BadRequest? ==> resp.error == Message(Validate(query, parse).error)
    ensures resp.Answer? ==> resp.operation == OperationName(op)
    ensures resp.Answer? && op == MedianOp ==>
      resp.value == MedianValue(Median.Median(Validate(query, parse).value)) && resp.value.median.Some?
    ensures resp.Answer? && op == ModeOp ==>
      resp.value == ModeValue(Mode.ModeOf(Validate(query, parse).value))
  {
    var validated := ValidateNums(query, parse);
    if validated.Failure? {
      return BadRequest(Message(validated.error));
    }
    var nums := validated.value;
    ValidateNonEmpty(query, parse);
    match op
    case MedianOp =>
      resp := Answer("median", MedianValue(Median.Median(nums)));
    case ModeOp =>
      var mode := Mode.CalculateMode(nums);
      resp := Answer("mode", ModeValue(mode));
  }

  /** The number of pieces that do not parse. */
  function CountFailing(tokens: seq<string>, parse: string -> Option<real>): nat
  {
    if tokens == [] then 0
    else (if parse(tokens[0]).None? then 1 else 0) + CountFailing(tokens[1..], parse)
  }

  /** The validation loop fails exactly when some piece does not parse. */
  lemma {:induction false} ParseTokensFailing(tokens: seq<string>, parse: string -> Option<real>)
    ensures ParseTokens(tokens, parse).Failure? <==> CountFailing(tokens, parse) >= 1
  {
    if tokens != [] {
      ParseTokensFailing(tokens[1..], parse);
    }
  }

  /**
   * What a handler does to the response: the answers that reach the client,
   * how many times it calls `res.json`, and whether it ends by throwing.
   */
  datatype Run = Run(answers: seq<Response>, jsonCalls: nat, threw: bool)

  /**
   * The `.map` pass of the handlers as written, over the remaining pieces.
   * A piece that does not parse makes its callback call
   * `res.status(400).json(...)`: the first such call sends the 400 answer
   * (`answered` becomes true); a call after the answer was sent throws, which
   * ends the pass and the handler. A piece that parses calls nothing.
   */
  function MapPass(tokens: seq<string>, parse: string -> Option<real>, answered: bool): Run
  {
    if tokens == [] then Run([], 0, false)
    else if parse(tokens[0]).Some? then MapPass(tokens[1..], parse, answered)
    else if answered then Run([], 1, true)
    else
      var rest := MapPass(tokens[1..], parse, true);
      Run([BadRequest(Message(InvalidNumber(tokens[0])))] + rest.answers, 1 + rest.jsonCalls, rest.threw)
  }

  /**
   * The `/median` and `/mode` handlers as written. After the pass, the
   * statistic is computed and sent with `res.json`; when a 400 answer already
   * went out, that call throws too (the statistic is then computed over an
   * array that holds the response object, and is not modelled).
   */
  function MapHandlerRun(op: Operation, query: Option<string>, parse: string -> Option<real>): Run
  {
    if query.None? || query.value == [] then Run([BadRequest(Message(MissingInput))], 1, false)
    else
      var tokens := Split(query.value);
      var pass := MapPass(tokens, parse, false);
      if pass.threw then pass
      else if pass.answers == [] then
        // Every piece parsed, so the mapped array is the validated numbers.
        match ParseTokens(tokens, parse)
        case Success(nums) => Run([Answer(OperationName(op), Statistic(op, nums))], 1, false)
        case Failure(_) => pass // cannot happen: a bad piece makes the pass answer 400
      else Run(pass.answers, pass.jsonCalls + 1, true)
  }

  /** Once an answer was sent, the pass throws at the next bad piece, if there is one. */
  lemma {:induction false} MapPassAnswered(tokens: seq<string>, parse: string -> Option<real>)
    ensures MapPass(tokens, parse, true) ==
      if CountFailing(tokens, parse) == 0 then Run([], 0, false) else Run([], 1, true)
  {
    if tokens != [] {
      MapPassAnswered(tokens[1..], parse);
    }
  }

  /**
   * Before any answer, the pass sends nothing when every piece parses, and
   * otherwise sends exactly the 400 answer the `/mean` loop gives, then
   * throws if a second piece is bad.
   */
  lemma {:induction false} MapPassFresh(tokens: seq<string>, parse: string -> Option<real>)
    ensures ParseTokens(tokens, parse).Success? ==> MapPass(tokens, parse, false) == Run([], 0, false)
    ensures ParseTokens(tokens, parse).Failure? ==>
      && MapPass(tokens, parse, false).answers == [BadRequest(Message(ParseTokens(tokens, parse).error))]
      && MapPass(tokens, parse, false).threw == (CountFailing(tokens, parse) >= 2)
      && MapPass(tokens, parse, false).jsonCalls == (if CountFailing(tokens, parse) >= 2 then 2 else 1)
  {
    if tokens != [] {
      ParseTokensFailing(tokens, parse);
      ParseTokensFailing(tokens[1..], parse);
      if parse(tokens[0]).Some? {
        MapPassFresh(tokens[1..], parse);
      } else {
        MapPassAnswered(tokens[1..], parse);
      }
    }
  }

  /** The client of a handler as written gets exactly one answer, the one `Handle` gives. */
  lemma MapHandlerAnswersAsIntended(op: Operation, query: Option<string>, parse: string -> Option<real>)
    ensures MapHandlerRun(op, query, parse).answers == [Respond(op, query, parse)]
  {
    if query.Some? && query.value != [] {
      MapPassFresh(Split(query.value), parse);
    }
  }

  /**
   * The handlers as written throw exactly when a piece is not a number, after
   * calling `res.json` a second time; otherwise they call it once.
   */
  lemma MapHandlerThrows(op: Operation, query: Option<string>, parse: string -> Option<real>)
    ensures MapHandlerRun(op, query, parse).threw <==>
      Validate(query, parse).Failure? && Validate(query, parse).error.InvalidNumber?
    ensures MapHandlerRun(op, query, parse).jsonCalls ==
      if MapHandlerRun(op, query, parse).threw then 2 else 1
  {
    if query.Some? && query.value != [] {
      MapPassFresh(Split(query.value), parse);
    }
  }
}
