/** The rule-body evaluator of apg.Main: a rule body in Reverse Polish Notation
    is evaluated against an operand stack into one automaton fragment that
    matches the body read backwards. */
module Apg {
  import opened Syntax
  import opened Automata

  datatype Option<T> = None | Some(value: T)

  /** What evaluation can throw: the SyntaxError the source declares, and the
      unchecked IllegalArgumentException, IllegalStateException and
      EmptyStackException (from java.util.Stack.pop). */
  datatype Failure =
    | SyntaxError(message: Message)
    | IllegalArgument(message: Message)
    | IllegalState(message: Message)
    | EmptyStack

  /** The detail an exception carries; `Text` renders it as the source words it. */
  datatype Message =
    | CodeOutOfRange(endMarker: nat)
    | UnsupportedTag(tag: string)
    | NotReversePolish

  datatype Result<T> = Ok(value: T) | Err(failure: Failure)

  /** Which operand of a binary combinator is the receiver. `Backward` is the
      source's `stack.pop().or(stack.pop())`: the top of the stack, the later
      operand, becomes the left part. `Forward` is the reference order. */
  datatype Order = Forward | Backward

  /** The exception's message, worded as the source's format strings word it
      under a locale whose digits are '0'..'9'. */
  function Text(m: Message): (r: string) {
    match m
    case CodeOutOfRange(endMarker) =>
      "ABNF doesn't support Unicode, character codes must be in range [0, " + Decimal(endMarker) + "]."
    case UnsupportedTag(tag) => "Tag '" + tag + "' is not supported."
    case NotReversePolish => "The tokens parameter is not in Reverse Polish Notation."
  }

  predicate IsDigits(s: string) {
    forall i :: 0 <= i < |s| ==> '0' <= s[i] <= '9'
  }

  /** `n` as `%d` formats it under a locale whose digits are '0'..'9': no sign,
      no leading zero. */
  function Decimal(n: nat): (r: string)
    ensures |r| >= 1 && IsDigits(r)
    ensures r[0] == '0' <==> n == 0
  {
    var digit := ('0' as int + n % 10) as char;
    if n < 10 then [digit] else Decimal(n / 10) + [digit]
  }

  /** The number a string of decimal digits denotes. */
  function DecimalValue(s: string): (r: nat)
    requires IsDigits(s)
  {
    if s == [] then 0 else 10 * DecimalValue(s[..|s| - 1]) + (s[|s| - 1] as int - '0' as int)
  }

  /** Reading the digits `Decimal` writes gives the number back. */
  lemma {:induction false} DecimalRoundTrip(n: nat)
    ensures DecimalValue(Decimal(n)) == n
  {
    if n >= 10 {
      DecimalRoundTrip(n / 10);
      assert Decimal(n)[..|Decimal(n)| - 1] == Decimal(n / 10);
    }
  }

  /** The range message ends with "[0, N]." where N reads back as the end marker. */
  lemma CodeOutOfRangeText(endMarker: nat)
    ensures var t := Text(CodeOutOfRange(endMarker));
            var lead := "ABNF doesn't support Unicode, character codes must be in range [0, ";
            |t| >= |lead| + 3 && t[..|lead|] == lead && t[|t| - 2..] == "]." &&
            IsDigits(t[|lead|..|t| - 2]) && DecimalValue(t[|lead|..|t| - 2]) == endMarker
  {
    var lead := "ABNF doesn't support Unicode, character codes must be in range [0, ";
    var t := Text(CodeOutOfRange(endMarker));
    assert t[|lead|..|t| - 2] == Decimal(endMarker);
    DecimalRoundTrip(endMarker);
  }

  /** How many operands a token pops. */
  function Arity(t: Token): (r: nat) {
    match t
    case Alternation => 2
    case Concatenation => 2
    case Repetition(_, _) => 1
    case _ => 0
  }

  /** Stack depth after the tokens, each popping its arity and pushing one. */
  function Depth(tokens: seq<Token>): (r: int) {
    if tokens == [] then 0
    else Depth(tokens[..|tokens| - 1]) - Arity(tokens[|tokens| - 1]) + 1
  }

  /** The failure a token raises on a stack of the given depth, if any: an
      unsupported tag, a character code outside [0, endMarker], or too few
      operands for a combinator. */
  function StepError(depth: int, t: Token, endMarker: nat): (r: Option<Failure>) {
    match t
    case Other(tag) => Some(IllegalArgument(UnsupportedTag(tag)))
    case Char(c) => if c > endMarker || c < 0 then Some(SyntaxError(CodeOutOfRange(endMarker))) else None
    case _ => if depth < Arity(t) then Some(EmptyStack) else None
  }

  /** The two operands of a binary combinator, as (receiver, argument). */
  function Operands(stack: seq<Program>, order: Order): (r: (Program, Program))
    requires |stack| >= 2
  {
    var top, below := stack[|stack| - 1], stack[|stack| - 2];
    if order == Backward then (top, below) else (below, top)
  }

  /** One token applied to the operand stack (its top is the last element).
      The entries below the popped operands are never touched. */
  function Step(stack: seq<Program>, t: Token, ids: map<string, int>, endMarker: nat, order: Order)
    : (r: Result<seq<Program>>)
    requires t.RuleName? ==> t.name in ids
    ensures r.Err? ==> StepError(|stack|, t, endMarker) == Some(r.failure)
    ensures r.Ok? ==> StepError(|stack|, t, endMarker) == None
    ensures r.Ok? ==> Arity(t) <= |stack| && |r.value| == |stack| - Arity(t) + 1
    ensures r.Ok? ==> r.value[..|stack| - Arity(t)] == stack[..|stack| - Arity(t)]
  {
    var n := |stack|;
    match t
    case Alternation =>
      if n < 2 then Err(EmptyStack)
      else var (a, b) := Operands(stack, order); Ok(stack[..n - 2] + [Or(a, b)])
    case Char(c) =>
      if c > endMarker || c < 0 then Err(SyntaxError(CodeOutOfRange(endMarker)))
      else Ok(stack + [Program.Char(c)])
    case Concatenation =>
      if n < 2 then Err(EmptyStack)
      else var (a, b) := Operands(stack, order); Ok(stack[..n - 2] + [Cat(a, b)])
    case Num(range) =>
      Ok(stack + [Class([range])])
    case Repetition(min, max) =>
      if n < 1 then Err(EmptyStack)
      else Ok(stack[..n - 1] + [Rep(stack[n - 1], min, max)])
    case RuleName(name) =>
      Ok(stack + [Program.Char(ids[name])])
    case Other(tag) =>
      Err(IllegalArgument(UnsupportedTag(tag)))
  }

  /** What each supported token pushes when it succeeds: a leaf pushes one
      fragment on top of the unchanged stack, a combinator replaces its
      operands by their combination, the receiver taken from the top. */
  lemma StepPushes(stack: seq<Program>, t: Token, ids: map<string, int>, endMarker: nat, order: Order)
    requires t.RuleName? ==> t.name in ids
    ensures t.Char? && 0 <= t.code <= endMarker ==>
              Step(stack, t, ids, endMarker, order) == Ok(stack + [Program.Char(t.code)])
    ensures t.Num? ==> Step(stack, t, ids, endMarker, order) == Ok(stack + [Class([t.range])])
    ensures t.RuleName? ==> Step(stack, t, ids, endMarker, order) == Ok(stack + [Program.Char(ids[t.name])])
    ensures t.Alternation? && |stack| >= 2 ==>
              Step(stack, t, ids, endMarker, order) ==
              Ok(stack[..|stack| - 2] + [Or(Operands(stack, order).0, Operands(stack, order).1)])
    ensures t.Concatenation? && |stack| >= 2 ==>
              Step(stack, t, ids, endMarker, order) ==
              Ok(stack[..|stack| - 2] + [Cat(Operands(stack, order).0, Operands(stack, order).1)])
    ensures t.Repetition? && |stack| >= 1 ==>
              Step(stack, t, ids, endMarker, order) ==
              Ok(stack[..|stack| - 1] + [Rep(stack[|stack| - 1], t.min, t.max)])
    ensures order == Backward && t.Alternation? && |stack| >= 2 ==>
              Step(stack, t, ids, endMarker, order) ==
              Ok(stack[..|stack| - 2] + [Or(stack[|stack| - 1], stack[|stack| - 2])])
    ensures order == Backward && t.Concatenation? && |stack| >= 2 ==>
              Step(stack, t, ids, endMarker, order) ==
              Ok(stack[..|stack| - 2] + [Cat(stack[|stack| - 1], stack[|stack| - 2])])
    ensures order == Forward && t.Concatenation? && |stack| >= 2 ==>
              Step(stack, t, ids, endMarker, order) ==
              Ok(stack[..|stack| - 2] + [Cat(stack[|stack| - 2], stack[|stack| - 1])])
  {
  }

  /** The operand stack after the tokens, or the first failure. */
  function Run(tokens: seq<Token>, ids: map<string, int>, endMarker: nat, order: Order)
    : (r: Result<seq<Program>>)
    requires Resolves(tokens, ids)
    ensures r.Ok? ==> |r.value| == Depth(tokens)
    decreases |tokens|
  {
    if tokens == [] then Ok([])
    else
      var last := tokens[|tokens| - 1];
      match Run(tokens[..|tokens| - 1], ids, endMarker, order)
      case Err(e) => Err(e)
      case Ok(stack) => Step(stack, last, ids, endMarker, order)
  }

  /** The single fragment a rule body reduces to; any other final depth is
      the "not in Reverse Polish Notation" state failure. */
  function Evaluate(tokens: seq<Token>, ids: map<string, int>, endMarker: nat, order: Order)
    : (r: Result<Program>)
    requires Resolves(tokens, ids)
  {
    match Run(tokens, ids, endMarker, order)
    case Err(e) => Err(e)
    case Ok(stack) => if |stack| != 1 then Err(IllegalState(NotReversePolish)) else Ok(stack[0])
  }

  /** Evaluating one more token is one more step on the stack reached so far. */
  lemma RunExtend(tokens: seq<Token>, i: nat, ids: map<string, int>, endMarker: nat, order: Order)
    requires i < |tokens| && Resolves(tokens, ids)
    ensures Resolves(tokens[..i], ids)
    ensures Run(tokens[..i], ids, endMarker, order).Err? ==>
              Run(tokens[..i + 1], ids, endMarker, order) == Run(tokens[..i], ids, endMarker, order)
    ensures Run(tokens[..i], ids, endMarker, order).Ok? ==>
              Run(tokens[..i + 1], ids, endMarker, order) ==
              Step(Run(tokens[..i], ids, endMarker, order).value, tokens[i], ids, endMarker, order)
  {
    assert tokens[..i + 1][..i] == tokens[..i];
  }

  /** A failure in a prefix is the failure of the whole body. */
  lemma {:induction false} PrefixFailure(tokens: seq<Token>, k: nat, ids: map<string, int>, endMarker: nat, order: Order)
    requires k <= |tokens| && Resolves(tokens, ids)
    requires Run(tokens[..k], ids, endMarker, order).Err?
    ensures Run(tokens, ids, endMarker, order) == Run(tokens[..k], ids, endMarker, order)
    decreases |tokens| - k
  {
    if k < |tokens| {
      assert tokens[..k + 1][..k] == tokens[..k];
      PrefixFailure(tokens, k + 1, ids, endMarker, order);
    } else {
      assert tokens[..k] == tokens;
    }
  }

  /** One iteration of the source's switch: the token's case pops its
      operands from the stack (java.util.Stack.pop throws on an empty stack),
      pushes the combined fragment, or throws. */
  method ApplyToken(stack: seq<Program>, token: Token, ids: map<string, int>, endMarker: nat)
    returns (r: Result<seq<Program>>)
    requires token.RuleName? ==> token.name in ids
    ensures r == Step(stack, token, ids, endMarker, Backward)
  {
    var n := |stack|;
    match token {
      case Alternation =>
        if n < 2 { return Err(EmptyStack); }
        r := Ok(stack[..n - 2] + [Or(stack[n - 1], stack[n - 2])]);
      case Char(charCode) =>
        if charCode > endMarker || charCode < 0 {
          return Err(SyntaxError(CodeOutOfRange(endMarker)));
        }
        r := Ok(stack + [Program.Char(charCode)]);
      case Concatenation =>
        if n < 2 { return Err(EmptyStack); }
        r := Ok(stack[..n - 2] + [Cat(stack[n - 1], stack[n - 2])]);
      case Num(range) =>
        r := Ok(stack + [Class([range])]);
      case Repetition(min, max) =>
        if n < 1 { return Err(EmptyStack); }
        r := Ok(stack[..n - 1] + [Rep(stack[n - 1], min, max)]);
      case RuleName(name) =>
        r := Ok(stack + [Program.Char(ids[name])]);
      case Other(tag) =>
        r := Err(IllegalArgument(UnsupportedTag(tag)));
    }
  }

  /** Builds the program for one rule body: each token pops its operands from
      a local stack and pushes the combined fragment. The result is the
      fragment of the body read backwards. */
  method RpnToProgramReverse(ids: map<string, int>, tokens: seq<Token>, endMarker: nat)
    returns (r: Result<Program>)
    requires Resolves(tokens, ids)
    ensures r == Evaluate(tokens, ids, endMarker, Backward)
  {
    var stack: seq<Program> := [];
    var i := 0;
    while i < |tokens|
      invariant 0 <= i <= |tokens|
      invariant Run(tokens[..i], ids, endMarker, Backward) == Ok(stack)
    {
      var next := ApplyToken(stack, tokens[i], ids, endMarker);
      RunExtend(tokens, i, ids, endMarker, Backward);
      if next.Err? {
        r := Err(next.failure);
        PrefixFailure(tokens, i + 1, ids, endMarker, Backward);
        return;
      }
      stack := next.value;
      i := i + 1;
    }
    assert tokens[..i] == tokens;
    if |stack| != 1 {
      r := Err(IllegalState(NotReversePolish));
      return;
    }
    r := Ok(stack[0]);
  }
}
