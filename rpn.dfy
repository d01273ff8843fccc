/** What the rule-body evaluator promises: when it succeeds, which failure it
    reports otherwise, and how its backward program relates to the forward
    reading of the same body. */
module RpnProperties {
  import opened Syntax
  import opened Automata
  import opened Apg

  /** No token meets a failure: every tag is supported, every character code
      is in range and no combinator finds fewer operands than it pops. */
  predicate Clean(tokens: seq<Token>, endMarker: nat) {
    forall j :: 0 <= j < |tokens| ==> StepError(Depth(tokens[..j]), tokens[j], endMarker) == None
  }

  lemma CleanPrefix(tokens: seq<Token>, endMarker: nat)
    requires tokens != []
    ensures var n := |tokens|;
      Clean(tokens, endMarker) <==>
      Clean(tokens[..n - 1], endMarker) && StepError(Depth(tokens[..n - 1]), tokens[n - 1], endMarker) == None
  {
    var p := tokens[..|tokens| - 1];
    forall j | 0 <= j < |p|
      ensures tokens[..j] == p[..j] && tokens[j] == p[j]
    {
    }
  }

  /** The operand stack is built without failure exactly when no token fails. */
  lemma {:induction false} RunOkIffClean(tokens: seq<Token>, ids: map<string, int>, endMarker: nat, order: Order)
    requires Resolves(tokens, ids)
    ensures Run(tokens, ids, endMarker, order).Ok? <==> Clean(tokens, endMarker)
    decreases |tokens|
  {
    if tokens != [] {
      var n := |tokens|;
      RunExtend(tokens, n - 1, ids, endMarker, order);
      assert tokens[..n] == tokens;
      RunOkIffClean(tokens[..n - 1], ids, endMarker, order);
      CleanPrefix(tokens, endMarker);
    }
  }

  /** The first token that fails decides the failure of the whole body. */
  lemma FirstFailure(tokens: seq<Token>, k: nat, ids: map<string, int>, endMarker: nat, order: Order)
    requires Resolves(tokens, ids) && k < |tokens|
    requires Clean(tokens[..k], endMarker)
    requires StepError(Depth(tokens[..k]), tokens[k], endMarker).Some?
    ensures Run(tokens, ids, endMarker, order) == Err(StepError(Depth(tokens[..k]), tokens[k], endMarker).value)
    ensures Evaluate(tokens, ids, endMarker, order) == Err(StepError(Depth(tokens[..k]), tokens[k], endMarker).value)
  {
    RunExtend(tokens, k, ids, endMarker, order);
    RunOkIffClean(tokens[..k], ids, endMarker, order);
    PrefixFailure(tokens, k + 1, ids, endMarker, order);
  }

  /** A token never raises the state failure, so neither does the fold. */
  lemma {:induction false} RunErrIsStepError(tokens: seq<Token>, ids: map<string, int>, endMarker: nat, order: Order)
    requires Resolves(tokens, ids)
    ensures Run(tokens, ids, endMarker, order).Err? ==> !Run(tokens, ids, endMarker, order).failure.IllegalState?
    decreases |tokens|
  {
    if tokens != [] {
      var prefix := tokens[..|tokens| - 1];
      assert Resolves(prefix, ids);
      RunErrIsStepError(prefix, ids, endMarker, order);
      var before := Run(prefix, ids, endMarker, order);
      if before.Ok? {
        var r := Step(before.value, tokens[|tokens| - 1], ids, endMarker, order);
        assert Run(tokens, ids, endMarker, order) == r;
        if r.Err? {
          var e := StepError(|before.value|, tokens[|tokens| - 1], endMarker);
          assert e == Some(r.failure);
        }
      }
    }
  }

  /** A body evaluates exactly when it is well-formed Reverse Polish Notation:
      no token fails and one fragment is left. A failure-free body that leaves
      any other number of fragments is the state failure, and every other
      failure comes from a token. */
  lemma EvaluateOutcome(tokens: seq<Token>, ids: map<string, int>, endMarker: nat, order: Order)
    requires Resolves(tokens, ids)
    ensures Evaluate(tokens, ids, endMarker, order).Ok? <==> Clean(tokens, endMarker) && Depth(tokens) == 1
    ensures Clean(tokens, endMarker) && Depth(tokens) != 1 ==>
              Evaluate(tokens, ids, endMarker, order) == Err(IllegalState(NotReversePolish))
    ensures (Evaluate(tokens, ids, endMarker, order).Err? &&
             !Evaluate(tokens, ids, endMarker, order).failure.IllegalState?) ==> !Clean(tokens, endMarker)
    ensures (Evaluate(tokens, ids, endMarker, order).Err? &&
             Evaluate(tokens, ids, endMarker, order).failure.IllegalState?) ==>
              Clean(tokens, endMarker) && Depth(tokens) != 1
  {
    RunOkIffClean(tokens, ids, endMarker, order);
    RunErrIsStepError(tokens, ids, endMarker, order);
  }

  /** A character code outside [0, endMarker] is never clamped: the body
      cannot evaluate, and if nothing fails before it, it is the SyntaxError. */
  lemma OutOfRangeCharRejected(tokens: seq<Token>, i: nat, ids: map<string, int>, endMarker: nat, order: Order)
    requires Resolves(tokens, ids) && i < |tokens|
    requires tokens[i].Char? && (tokens[i].code < 0 || tokens[i].code > endMarker)
    ensures !Evaluate(tokens, ids, endMarker, order).Ok?
    ensures Clean(tokens[..i], endMarker) ==>
              Evaluate(tokens, ids, endMarker, order) == Err(SyntaxError(CodeOutOfRange(endMarker)))
  {
    RunOkIffClean(tokens, ids, endMarker, order);
    assert StepError(Depth(tokens[..i]), tokens[i], endMarker).Some?;
    if Clean(tokens[..i], endMarker) {
      FirstFailure(tokens, i, ids, endMarker, order);
    }
  }

  /** Every fragment of a stack, reversed. */
  function ReverseAll(stack: seq<Program>): (r: seq<Program>)
    ensures |r| == |stack|
  {
    seq(|stack|, i requires 0 <= i < |stack| => Reverse(stack[i]))
  }

  lemma ReverseAllPush(stack: seq<Program>, p: Program)
    ensures ReverseAll(stack + [p]) == ReverseAll(stack) + [Reverse(p)]
  {
  }

  lemma ReverseAllPrefix(stack: seq<Program>, k: nat)
    requires k <= |stack|
    ensures ReverseAll(stack)[..k] == ReverseAll(stack[..k])
  {
  }

  /** One backward step on the reversed stack is the reversed forward step. */
  lemma StepReverse(stack: seq<Program>, t: Token, ids: map<string, int>, endMarker: nat)
    requires t.RuleName? ==> t.name in ids
    ensures var f := Step(stack, t, ids, endMarker, Forward);
            var b := Step(ReverseAll(stack), t, ids, endMarker, Backward);
            b == if f.Err? then f else Ok(ReverseAll(f.value))
  {
    var n := |stack|;
    match t
    case Alternation =>
      if n >= 2 {
        ReverseAllPrefix(stack, n - 2);
        ReverseAllPush(stack[..n - 2], Or(stack[n - 2], stack[n - 1]));
      }
    case Concatenation =>
      if n >= 2 {
        ReverseAllPrefix(stack, n - 2);
        ReverseAllPush(stack[..n - 2], Cat(stack[n - 2], stack[n - 1]));
      }
    case Repetition(min, max) =>
      if n >= 1 {
        ReverseAllPrefix(stack, n - 1);
        ReverseAllPush(stack[..n - 1], Rep(stack[n - 1], min, max));
      }
    case Char(c) =>
      ReverseAllPush(stack, Program.Char(c));
    case Num(range) =>
      ReverseAllPush(stack, Class([range]));
    case RuleName(name) =>
      ReverseAllPush(stack, Program.Char(ids[name]));
    case Other(_) =>
  }

  /** The backward evaluation builds, token for token, the reverse of what the
      forward evaluation builds, and fails exactly when and how it fails. */
  lemma {:induction false} RunBackwardIsReversedForward(tokens: seq<Token>, ids: map<string, int>, endMarker: nat)
    requires Resolves(tokens, ids)
    ensures var f := Run(tokens, ids, endMarker, Forward);
            var b := Run(tokens, ids, endMarker, Backward);
            b == if f.Err? then f else Ok(ReverseAll(f.value))
    decreases |tokens|
  {
    if tokens == [] {
      assert ReverseAll([]) == [];
    } else {
      var n := |tokens|;
      assert tokens[..n] == tokens;
      RunExtend(tokens, n - 1, ids, endMarker, Forward);
      RunExtend(tokens, n - 1, ids, endMarker, Backward);
      RunBackwardIsReversedForward(tokens[..n - 1], ids, endMarker);
      var f := Run(tokens[..n - 1], ids, endMarker, Forward);
      if f.Ok? {
        StepReverse(f.value, tokens[n - 1], ids, endMarker);
      }
    }
  }

  /** The program the source builds is the reverse of the forward program of
      the same body, and it matches exactly the reversed words of the forward
      program's language: it reads the rule's pattern backwards. */
  lemma BackwardMatchesReversedWords(tokens: seq<Token>, ids: map<string, int>, endMarker: nat)
    requires Resolves(tokens, ids)
    ensures Evaluate(tokens, ids, endMarker, Backward).Ok? <==> Evaluate(tokens, ids, endMarker, Forward).Ok?
    ensures Evaluate(tokens, ids, endMarker, Backward).Err? ==>
              Evaluate(tokens, ids, endMarker, Backward) == Evaluate(tokens, ids, endMarker, Forward)
    ensures Evaluate(tokens, ids, endMarker, Backward).Ok? ==>
              Evaluate(tokens, ids, endMarker, Backward).value == Reverse(Evaluate(tokens, ids, endMarker, Forward).value)
    ensures Evaluate(tokens, ids, endMarker, Backward).Ok? ==>
              Evaluate(tokens, ids, endMarker, Forward).value == Reverse(Evaluate(tokens, ids, endMarker, Backward).value)
    ensures Evaluate(tokens, ids, endMarker, Backward).Ok? ==>
              forall w :: Matches(Evaluate(tokens, ids, endMarker, Backward).value, w) <==>
                          Matches(Evaluate(tokens, ids, endMarker, Forward).value, Rev(w))
  {
    RunBackwardIsReversedForward(tokens, ids, endMarker);
    var f := Evaluate(tokens, ids, endMarker, Forward);
    if f.Ok? {
      ReverseInvolution(f.value);
      forall w
        ensures Matches(Reverse(f.value), w) <==> Matches(f.value, Rev(w))
      {
        MatchesReverse(f.value, w);
      }
    }
  }
}
