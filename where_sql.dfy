/** The `WHERE` clause: a condition tree read from tokens by the recursive
    condition parser, and its evaluation on one register. */
module WhereClause {
  import opened Errors
  import opened Operators
  import opened Conditions
  import opened Registers

  datatype Where = Where(condition: Condition)

  /** The recursive condition parser, which lies outside this model: given the
      tokens and the cursor, a condition and the cursor after it, or an error. */
  type ConditionParser = (seq<string>, nat) -> Result<(Condition, nat)>

  /** `Where::new_from_tokens`: four tokens at least, then the parser from
      index 1, so the `WHERE` keyword itself is never looked at. */
  function NewFromTokens(tokens: seq<string>, parse: ConditionParser): (r: Result<Where>)
    ensures |tokens| < 4 ==> r == Err(InvalidSyntax)
    ensures |tokens| >= 4 && parse(tokens, 1).Err? ==> r == Err(parse(tokens, 1).error)
    ensures |tokens| >= 4 && parse(tokens, 1).Ok? ==> r == Ok(Where(parse(tokens, 1).value.0))
  {
    if |tokens| < 4 then Err(InvalidSyntax)
    else
      var (condition, _) :- parse(tokens, 1);
      Ok(Where(condition))
  }

  /** `Where::execute`: the condition evaluated on the register's map. */
  function Execute(w: Where, register: Register): (r: Result<bool>)
    ensures r == Conditions.Execute(w.condition, register)
  {
    Conditions.Execute(w.condition, register)
  }

  /** Whether an optional `WHERE` clause lets a register through: always
      without a clause, otherwise as its condition evaluates. */
  function Admits(w: Option<Where>, register: Register): (r: Result<bool>)
    ensures w.None? ==> r == Ok(true)
    ensures w.Some? ==> r == Conditions.Execute(w.value.condition, register)
  {
    match w
    case None => Ok(true)
    case Some(clause) => Execute(clause, register)
  }

  /** Only the token count and what the parser reads from index 1 matter. */
  lemma NewFromTokensIgnoresKeyword(t1: seq<string>, t2: seq<string>, parse: ConditionParser)
    requires |t1| == |t2| && parse(t1, 1) == parse(t2, 1)
    ensures NewFromTokens(t1, parse) == NewFromTokens(t2, parse)
  {
  }

  /** `WHERE cantidad > 1`, with a parser that reads it as one comparison. */
  lemma NewFromTokensExample(parse: ConditionParser)
    requires parse(["WHERE", "cantidad", ">", "1"], 1) == Ok((Simple("cantidad", Greater, "1"), 4))
    ensures NewFromTokens(["WHERE", "cantidad", ">", "1"], parse) == Ok(Where(Simple("cantidad", Greater, "1")))
  {
  }
}
