/** The part of apg.Main's driver around the evaluator: the alphabet handed
    to automaton construction, and one backward program per rule. */
module Driver {
  import opened Syntax
  import opened Automata
  import opened Apg
  import opened RpnProperties

  /** `new Range(0, RuleList.MIN_RULE_ID + rules.size() - 1)`: every literal
      code below the first rule id, and every rule id, and nothing more. */
  function Alphabet(minRuleId: int, ruleCount: nat): (r: Range)
    requires 0 <= minRuleId
    ensures forall c :: 0 <= c < minRuleId ==> r.Contains(c)
    ensures forall id :: minRuleId <= id < minRuleId + ruleCount ==> r.Contains(id)
    ensures !r.Contains(-1) && !r.Contains(minRuleId + ruleCount)
  {
    Range(0, minRuleId + ruleCount - 1)
  }

  /** The inputs of automaton construction for a whole rule list. */
  datatype Build = Build(alphabet: Range, programs: seq<Program>)

  /** The driver's loop over the rules: the rule with id `minRuleId + i` has
      body `bodies[i]`; the first rule whose body fails aborts the pass with
      that failure. */
  method BuildReversePrograms(bodies: seq<seq<Token>>, ids: map<string, int>, minRuleId: int, endMarker: nat)
    returns (r: Result<Build>)
    requires 0 <= minRuleId
    requires forall i :: 0 <= i < |bodies| ==> Resolves(bodies[i], ids)
    ensures r.Ok? <==> forall i :: 0 <= i < |bodies| ==> Evaluate(bodies[i], ids, endMarker, Backward).Ok?
    ensures r.Ok? ==> r.value.alphabet == Alphabet(minRuleId, |bodies|)
    ensures r.Ok? ==> |r.value.programs| == |bodies|
    ensures r.Ok? ==> forall i :: 0 <= i < |bodies| ==>
              Evaluate(bodies[i], ids, endMarker, Backward) == Ok(r.value.programs[i])
    ensures r.Err? ==> exists k :: (0 <= k < |bodies| &&
              Evaluate(bodies[k], ids, endMarker, Backward) == Err(r.failure) &&
              forall j :: 0 <= j < k ==> Evaluate(bodies[j], ids, endMarker, Backward).Ok?)
  {
    var programs: seq<Program> := [];
    var alphabet := Range(0, minRuleId + |bodies| - 1);
    var i := 0;
    while i < |bodies|
      invariant 0 <= i <= |bodies| && |programs| == i
      invariant forall j :: 0 <= j < i ==> Evaluate(bodies[j], ids, endMarker, Backward) == Ok(programs[j])
    {
      var program := RpnToProgramReverse(ids, bodies[i], endMarker);
      if program.Err? {
        r := Err(program.failure);
        assert Evaluate(bodies[i], ids, endMarker, Backward) == Err(r.failure);
        return;
      }
      programs := programs + [program.value];
      i := i + 1;
    }
    r := Ok(Build(alphabet, programs));
    assert alphabet == Alphabet(minRuleId, |bodies|);
  }

  /** A code a program may name: a literal code in [0, endMarker] or a rule id. */
  predicate Legal(c: int, ids: map<string, int>, endMarker: nat) {
    0 <= c <= endMarker || c in ids.Values
  }

  predicate StackLegal(stack: seq<Program>, ids: map<string, int>, endMarker: nat) {
    forall i, c :: 0 <= i < |stack| && c in Symbols(stack[i]) ==> Legal(c, ids, endMarker)
  }

  /** The entry a step pushes names only legal codes. */
  lemma PushedLegal(stack: seq<Program>, t: Token, ids: map<string, int>, endMarker: nat, order: Order)
    requires t.RuleName? ==> t.name in ids
    requires StackLegal(stack, ids, endMarker)
    requires Step(stack, t, ids, endMarker, order).Ok?
    ensures var s := Step(stack, t, ids, endMarker, order).value;
            forall c :: c in Symbols(s[|s| - 1]) ==> Legal(c, ids, endMarker)
  {
    StepPushes(stack, t, ids, endMarker, order);
    var s := Step(stack, t, ids, endMarker, order).value;
    forall c | c in Symbols(s[|s| - 1]) ensures Legal(c, ids, endMarker) {
      if t.Alternation? || t.Concatenation? {
        var (a, b) := Operands(stack, order);
        assert c in Symbols(a) || c in Symbols(b);
      } else if t.RuleName? {
        assert c == ids[t.name];
      }
    }
  }

  lemma StepLegal(stack: seq<Program>, t: Token, ids: map<string, int>, endMarker: nat, order: Order)
    requires t.RuleName? ==> t.name in ids
    requires StackLegal(stack, ids, endMarker)
    requires Step(stack, t, ids, endMarker, order).Ok?
    ensures StackLegal(Step(stack, t, ids, endMarker, order).value, ids, endMarker)
  {
    var s := Step(stack, t, ids, endMarker, order).value;
    var m := |stack| - Arity(t);
    forall i | 0 <= i < m ensures s[i] == stack[i] {
      assert s[..m][i] == s[i];
    }
    PushedLegal(stack, t, ids, endMarker, order);
  }

  lemma {:induction false} RunLegal(tokens: seq<Token>, ids: map<string, int>, endMarker: nat, order: Order)
    requires Resolves(tokens, ids)
    requires Run(tokens, ids, endMarker, order).Ok?
    ensures StackLegal(Run(tokens, ids, endMarker, order).value, ids, endMarker)
    decreases |tokens|
  {
    if tokens != [] {
      var n := |tokens|;
      assert tokens[..n] == tokens;
      RunExtend(tokens, n - 1, ids, endMarker, order);
      RunLegal(tokens[..n - 1], ids, endMarker, order);
      StepLegal(Run(tokens[..n - 1], ids, endMarker, order).value, tokens[n - 1], ids, endMarker, order);
    }
  }

  /** When literal codes end below the first rule id and every referenced
      rule's id is one of the list's ids, every code a built program names
      lies in the alphabet of the pass: literal codes and rule-reference
      symbols share one alphabet without colliding. */
  lemma SymbolsInAlphabet(tokens: seq<Token>, ids: map<string, int>, endMarker: nat, minRuleId: int, ruleCount: nat)
    requires Resolves(tokens, ids) && endMarker < minRuleId
    requires forall name :: name in ids ==> minRuleId <= ids[name] < minRuleId + ruleCount
    requires Evaluate(tokens, ids, endMarker, Backward).Ok?
    ensures forall c :: c in Symbols(Evaluate(tokens, ids, endMarker, Backward).value) ==>
              Alphabet(minRuleId, ruleCount).Contains(c) && (c <= endMarker <==> c < minRuleId)
  {
    RunLegal(tokens, ids, endMarker, Backward);
    var stack := Run(tokens, ids, endMarker, Backward).value;
    assert Evaluate(tokens, ids, endMarker, Backward).value == stack[0];
    forall c | c in Symbols(stack[0])
      ensures Alphabet(minRuleId, ruleCount).Contains(c) && (c <= endMarker <==> c < minRuleId)
    {
      assert Legal(c, ids, endMarker);
      if !(0 <= c <= endMarker) {
        var name :| name in ids && ids[name] == c;
      }
    }
  }
}
