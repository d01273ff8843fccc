/** The grammar-model values the rule-body evaluator consumes: code ranges and
    the tokens of a rule body written in Reverse Polish Notation. */
module Syntax {

  /** A closed interval [lo, hi] of character or symbol codes (apg.automata.Range). */
  datatype Range = Range(lo: int, hi: int) {
    predicate Contains(c: int) {
      lo <= c <= hi
    }
  }

  /** One element of a rule body in postfix order (apg.syntax.Token), by tag.
      `Other` stands for every tag the evaluator has no case for. */
  datatype Token =
    | Alternation
    | Concatenation
    | Repetition(min: int, max: int)
    | Char(code: int)
    | Num(range: Range)
    | RuleName(name: string)
    | Other(tag: string)

  /** Every rule reference in `tokens` names a rule of the rule list. */
  predicate Resolves(tokens: seq<Token>, ids: map<string, int>) {
    forall i :: 0 <= i < |tokens| && tokens[i].RuleName? ==> tokens[i].name in ids
  }
}
