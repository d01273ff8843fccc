# Rule-body evaluator of the ABNF parser generator

This project models the part of `apg.Main` that turns the body of one grammar
rule into an automaton fragment. A rule body is a sequence of tokens in
Reverse Polish Notation. It holds leaves (a character `Char`, a numeric range
`Num`, a reference to another rule `RuleName`) and combinators (`Alternation`,
`Concatenation`, `Repetition`). `RpnToProgramReverse` evaluates it with an
operand stack and returns one `Program`. The driver builds one such program per
rule, together with the alphabet `[0, MIN_RULE_ID + ruleCount - 1]` that automaton
construction uses. Literal codes and rule ids share this alphabet.

The token kinds follow ABNF (RFC 5234): concatenation (section 3.1),
alternation (section 3.2), value ranges (section 3.4) and variable repetition
(section 3.6).

Files, one module each:

- `syntax.dfy` (`Syntax`): `Range`, `Token`, and `Resolves`. `Resolves` says
  that every rule reference of a body names a rule of the list.
- `automata.dfy` (`Automata`): `Program` as the tree of the combinators that built it.
  - `Reverse` is the fragment read backwards.
  - `Matches` gives the words a fragment matches, by the RFC 5234 meaning of each combinator.
  - `MatchesReverse` proves that a reversed fragment matches exactly the reversed words.
- `apg.dfy` (`Apg`): the evaluator.
  - `Step` is one token on the stack. `Run` folds the tokens. `Evaluate` adds the final depth check.
  - The parameter `Order` selects the source's operand order (`Backward`) or the plain one (`Forward`).
  - `RpnToProgramReverse` is the imperative loop over a local stack, proved equal to `Evaluate(…, Backward)`.
  - `ApplyToken` is a helper that holds the loop body, the `switch` on the token's tag. Its contract is `Step`, so the README table lists no row for it.
  - `Decimal` and `Text` render a failure's message as the source's format strings do, under a locale whose digits are '0'..'9'.
- `rpn.dfy` (`RpnProperties`): when evaluation succeeds, which failure it reports, and how the backward program relates to the forward one.
- `driver.dfy` (`Driver`): the alphabet bound, the per-rule loop of `main`, and the lemma that every code a built program names lies in the alphabet.

The stack's top is the last element of a `seq`, as in `java.util.Stack`. The
exceptions are the `Failure` values `SyntaxError`, `IllegalArgument`,
`IllegalState` and `EmptyStack`. `EmptyStack` stands for the
`EmptyStackException` of `Stack.pop`. Each exception's detail is a `Message`,
and `Text` renders it in the source's wording, with decimal digits '0'..'9'.

Only a wrong final depth raises the `IllegalStateException`
(`src/apg/Main.java:193-195`). A combinator that finds too few operands raises
`EmptyStackException` from `pop` first (`src/apg/Main.java:147`, `166`, `178`).
`EvaluateOutcome` and `FirstFailure` state which failure comes when.

## Model

| member | source | states |
|---|---|---|
| Apg.RpnToProgramReverse | src/apg/Main.java:141-199 | The loop over the tokens with a local operand stack returns exactly `Evaluate(tokens, …, Backward)`: the one fragment, or the first failure, or the state failure for a final depth other than 1 |
| Apg.Step | src/apg/Main.java:144-190 | A token fails exactly when `StepError` names a failure: an unsupported tag, a `Char` code outside `[0, endMarker]`, or fewer operands than it pops. On success the depth changes by 1 minus the arity, and the entries below the operands are unchanged |
| Apg.StepPushes | src/apg/Main.java:146-185 | What each tag pushes. Under the source's order, `a b Concatenation` gives `Cat(b, a)`, and the forward order gives `Cat(a, b)`. `Char` pushes a single-code fragment for its code, and `Num` a class over exactly its one range. `RuleName` pushes a single symbol equal to the referenced rule's id, not the rule's body. `Alternation` and `Concatenation` replace two operands by `Or`/`Cat` with the top as receiver. `Repetition` wraps the top in `Rep` with the token's own min and max |
| Apg.DecimalRoundTrip | src/apg/Main.java:155-158 | The ASCII digits written for the end marker (as `%1$d` writes them under a locale whose zero digit is '0') read back as that number, so the message names the bound exactly |
| Apg.CodeOutOfRangeText | src/apg/Main.java:155-158 | The range SyntaxError's message is the fixed lead text, then the end marker in decimal, then "]." |
| Apg.Run | src/apg/Main.java:142-191 | When no token fails, the stack holds `Depth(tokens)` fragments: each token pops its arity and pushes one |
| Apg.PrefixFailure | src/apg/Main.java:155-189 | A failure thrown at some token ends the evaluation with that failure; later tokens are never looked at |
| RpnProperties.RunOkIffClean | src/apg/Main.java:144-191 | The stack is built without failure if and only if every tag is supported, every `Char` code is in range and no combinator underflows |
| RpnProperties.RunErrIsStepError | src/apg/Main.java:144-191 | No token of the loop raises the `IllegalStateException`: a failure while building the stack is always a token's SyntaxError, IllegalArgumentException or EmptyStackException |
| RpnProperties.FirstFailure | src/apg/Main.java:144-191 | The first token that fails decides the failure of the whole body |
| RpnProperties.EvaluateOutcome | src/apg/Main.java:187-198 | Evaluation succeeds if and only if no token fails and the final depth is exactly 1. A failure-free body of any other depth gives the "not in Reverse Polish Notation" state error, not a SyntaxError. That state error comes only from a wrong final depth of a failure-free body. Every other failure comes from a token |
| RpnProperties.OutOfRangeCharRejected | src/apg/Main.java:151-159 | A `Char` code above `endMarker` or below 0 never evaluates: it is not clamped. When nothing fails before it, the result is the SyntaxError naming the range |
| RpnProperties.StepReverse | src/apg/Main.java:146-179 | A backward step on the reversed stack is the reversed forward step, failing exactly when it fails |
| RpnProperties.RunBackwardIsReversedForward | src/apg/Main.java:141-191 | The backward stack is, entry by entry, the reverse of the forward stack, or both fail with the same failure |
| RpnProperties.BackwardMatchesReversedWords | src/apg/Main.java:132-134 | The built program is the reverse of the forward program of the same body, and the forward program is the reverse of the built one. It matches a word exactly when the forward program matches that word reversed, so it matches the pattern in reverse sequence |
| Automata.MatchesReverse | src/apg/Main.java:132-134 | A reversed fragment matches `w` if and only if the fragment matches `w` read backwards |
| Automata.CatMatchesReverse | src/apg/Main.java:165-167 | A reversed concatenation matches the two halves of a word in the opposite order |
| Automata.MatchesNReverse | src/apg/Main.java:177-179 | `n` repetitions of a reversed fragment match `w` if and only if `n` repetitions of the fragment match `w` reversed |
| Automata.ReverseInvolution | src/apg/Main.java:132-134 | Reading a fragment backwards twice gives the fragment back |
| Driver.Alphabet | src/apg/Main.java:59-63 | The alphabet holds every code below the first rule id and every rule id `MIN_RULE_ID + i` for `i` below the rule count, and neither -1 nor the next id |
| Driver.BuildReversePrograms | src/apg/Main.java:58-68 | It succeeds if and only if every rule body evaluates. It then returns one program per rule, each equal to that body's evaluation, with the alphabet of the pass. Otherwise it fails with the failure of the first body that fails |
| Driver.SymbolsInAlphabet | src/apg/Main.java:107-111 | Take literal codes that end below the first rule id and rule ids in `[MIN_RULE_ID, MIN_RULE_ID + n)`. Then every code a built program names is in the alphabet, and it is a literal code exactly when it is below the first rule id |

## Left out

- Automaton construction (`new Dfa(program, alphabet)`), `ParsingTable`, `Parser` and `JavaCodeGenerator`: their source is not part of this model. `Program` is kept as the tree of combinator calls, and its meaning is given only as the set of words it matches.
- Driver.BuildReversePrograms: returns the programs and the alphabet that are handed to automaton construction, not the automata. The array of automata becomes a sequence.
- Reading standard input, printing diagnostics to standard error, the hand-written meta-grammar rule list, the second parsing pass and the "no rule" check of `main` are I/O and process plumbing. They are not modelled. The second pass repeats the first one's loop, which `BuildReversePrograms` models.
- In the source, a `SyntaxError` is printed and ends `main`. The unchecked exceptions leave `main` uncaught. Both end the pass, and the model returns both as `Err`.
- `RuleList.get(name).getId()` is not part of this model. It is a map from rule names to ids, and every referenced name is required to be in it (`Resolves`).
- `Token.END_MARKER` and `RuleList.MIN_RULE_ID` are not part of this model, so their values are unknown. They are the parameters `endMarker` and `minRuleId`, and the properties hold for every value with `0 <= endMarker < minRuleId` as long as the alphabet arithmetic does not overflow (next line).
- Driver.Alphabet: the bound `MIN_RULE_ID + rules.size() - 1` is Java `int` arithmetic. The model takes it as unbounded, so it assumes `minRuleId + ruleCount - 1` fits in a Java `int`. If it wrapped past 2^31 - 1, the alphabet's ensures would not describe the source.
- Apg.Decimal: `String.format` formats `%d` in the JVM's default locale. The model writes the digits '0'..'9', so it covers only locales whose zero digit is '0'. Under a locale with other digits, such as Thai or Arabic ones, the message carries non-ASCII digits that the model does not produce.
- Apg.Text: renders the end marker with `Decimal`, so it has the same locale limit.
- `token.character()` is modelled as an unbounded integer code, so the check for a code below 0 is kept even though a Java `char` cannot be negative.
- The evaluator does not check the range of a `Num` token against `endMarker`. The model does not either, so `SymbolsInAlphabet` covers the single codes of `Char` and rule references, not class ranges.
- A repetition without an upper bound is carried as whatever `max` the token holds. `Matches` reads that `max` literally, because the encoding of "no upper bound" is not part of this model. The reversal lemmas hold for any `min` and `max`.
- `Program`'s combinators consume their operands in the source, and the model does not track that. The model's values are immutable.
