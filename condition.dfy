/** The condition tree of a WHERE clause, its constructors, and its evaluation
    against one register. */
module Conditions {
  import opened Errors
  import opened Strings
  import opened Operators
  import opened Utils

  /** A comparison of one field against a literal, or a logical node whose left
      operand is absent for `Not`. */
  datatype Condition =
    | Simple(field: string, operator: Operator, value: string)
    | Complex(left: Option<Condition>, logicalOperator: LogicalOperator, right: Condition)

  /** The token that denotes each comparison operator. */
  function Symbol(op: Operator): string
  {
    match op
    case Equal => "="
    case Greater => ">"
    case Lesser => "<"
  }

  /** `Condition::new_simple`: recognises the operator token; anything but
      `=`, `>` and `<` is `InvalidSyntax`. */
  function NewSimple(field: string, operator: string, value: string): (r: Result<Condition>)
    ensures r.Ok? <==> exists op :: Symbol(op) == operator
    ensures r.Ok? ==> r.value.Simple? && r.value.field == field && r.value.value == value &&
                      Symbol(r.value.operator) == operator
    ensures r.Err? ==> r.error == InvalidSyntax
  {
    match operator
    case "=" => assert Symbol(Equal) == operator; Ok(Simple(field, Equal, value))
    case ">" => assert Symbol(Greater) == operator; Ok(Simple(field, Greater, value))
    case "<" => assert Symbol(Lesser) == operator; Ok(Simple(field, Lesser, value))
    case _ =>
      assert forall op :: Symbol(op) != operator;
      Err(InvalidSyntax)
  }

  /** `Condition::new_simple_from_tokens`: reads field, operator and value at
      the caller's cursor `pos`, advancing it past each token it finds. */
  method NewSimpleFromTokens(tokens: seq<string>, pos: nat) returns (r: Result<Condition>, pos': nat)
    ensures pos <= |tokens| ==> pos' == if pos + 3 <= |tokens| then pos + 3 else |tokens|
    ensures pos > |tokens| ==> pos' == pos
    ensures pos + 3 <= |tokens| ==> r == NewSimple(tokens[pos], tokens[pos + 1], tokens[pos + 2])
    ensures pos + 3 > |tokens| ==> r == Err(InvalidSyntax)
  {
    pos' := pos;
    if pos' < |tokens| {
      var field := tokens[pos'];
      pos' := pos' + 1;
      if pos' < |tokens| {
        var operator := tokens[pos'];
        pos' := pos' + 1;
        if pos' < |tokens| {
          var value := tokens[pos'];
          pos' := pos' + 1;
          r := NewSimple(field, operator, value);
        } else {
          r := Err(InvalidSyntax);
        }
      } else {
        r := Err(InvalidSyntax);
      }
    } else {
      r := Err(InvalidSyntax);
    }
  }

  /** `Condition::new_complex`: a logical node holding both operands as given. */
  function NewComplex(left: Option<Condition>, operator: LogicalOperator, right: Condition): (r: Condition)
    ensures r.Complex? && r.left == left && r.logicalOperator == operator && r.right == right
  {
    Complex(left, operator, right)
  }

  /** The comparison a simple condition makes between the row's value `x` and
      the literal `y`: string order even for numerals. */
  predicate Compare(op: Operator, x: string, y: string)
    ensures Compare(op, x, y) ==> (op == Equal <==> x == y)
  {
    LexLessIrreflexive(x);
    match op
    case Lesser => LexLess(x, y)
    case Greater => LexLess(y, x)
    case Equal => x == y
  }

  /** `Condition::execute`. */
  function Execute(c: Condition, register: map<string, string>): (r: Result<bool>)
    ensures r.Err? ==> r.error == Error || r.error == InvalidSyntax
  {
    match c
    case Simple(field, operator, y) =>
      if field in register then
        var x := register[field];
        if (IsNumber(y) && !IsNumber(x)) || (!IsNumber(y) && IsNumber(x)) then Err(InvalidSyntax)
        else Ok(Compare(operator, x, y))
      else Err(Error)
    case Complex(left, operator, right) =>
      match operator
      case Not =>
        var result :- Execute(right, register);
        Ok(!result)
      case Or =>
        if left.Some? then
          var leftResult :- Execute(left.value, register);
          var rightResult :- Execute(right, register);
          Ok(leftResult || rightResult)
        else Err(Error)
      case And =>
        if left.Some? then
          var leftResult :- Execute(left.value, register);
          var rightResult :- Execute(right, register);
          Ok(leftResult && rightResult)
        else Err(Error)
  }

  // ---------------------------------------------------------------------------
  // Properties of the evaluator

  /** A simple condition on a field the register lacks is the error `Error`. */
  lemma MissingField(field: string, op: Operator, value: string, register: map<string, string>)
    requires field !in register
    ensures Execute(Simple(field, op, value), register) == Err(Error)
  {
  }

  /** Comparing a numeral with a non-numeral is `InvalidSyntax`. */
  lemma MixedTypes(field: string, op: Operator, value: string, register: map<string, string>)
    requires field in register && IsNumber(register[field]) != IsNumber(value)
    ensures Execute(Simple(field, op, value), register) == Err(InvalidSyntax)
  {
  }

  /** For comparable operands exactly one of `<`, `=` and `>` holds: the three
      simple conditions compare the raw strings in one total order. */
  lemma ComparisonTrichotomy(field: string, value: string, register: map<string, string>)
    requires field in register && IsNumber(register[field]) == IsNumber(value)
    ensures Execute(Simple(field, Lesser, value), register).Ok?
    ensures Execute(Simple(field, Equal, value), register).Ok?
    ensures Execute(Simple(field, Greater, value), register).Ok?
    ensures var lt := Execute(Simple(field, Lesser, value), register).value;
            var eq := Execute(Simple(field, Equal, value), register).value;
            var gt := Execute(Simple(field, Greater, value), register).value;
            (lt && !eq && !gt) || (!lt && eq && !gt) || (!lt && !eq && gt)
  {
    var x := register[field];
    LexLessAsymmetric(x, value);
    if x == value {
      LexLessIrreflexive(x);
    } else {
      LexLessTotal(x, value);
    }
  }

  /** `Not` negates its operand's result and passes its error through. */
  lemma NotNegates(left: Option<Condition>, right: Condition, register: map<string, string>)
    ensures Execute(Complex(left, Not, right), register) ==
            match Execute(right, register)
            case Ok(b) => Ok(!b)
            case Err(e) => Err(e)
  {
  }

  /** `And` and `Or` without a left operand are the error `Error`. */
  lemma BinaryWithoutLeft(op: LogicalOperator, right: Condition, register: map<string, string>)
    requires op == And || op == Or
    ensures Execute(Complex(None, op, right), register) == Err(Error)
  {
  }

  /** `And` and `Or` evaluate the left operand, then the right one, with no
      short circuit: the left error is reported first, then the right one. */
  lemma BinaryEvaluatesBoth(left: Condition, op: LogicalOperator, right: Condition, register: map<string, string>)
    requires op == And || op == Or
    ensures Execute(Complex(Some(left), op, right), register) ==
            match (Execute(left, register), Execute(right, register))
            case (Err(e), _) => Err(e)
            case (Ok(_), Err(e)) => Err(e)
            case (Ok(a), Ok(b)) => Ok(if op == And then a && b else a || b)
  {
  }

  /** The fields a condition reads. */
  function Fields(c: Condition): set<string>
  {
    match c
    case Simple(field, _, _) => {field}
    case Complex(left, _, right) =>
      (if left.Some? then Fields(left.value) else {}) + Fields(right)
  }

  /** The evaluation reads only the fields the condition names. */
  lemma {:induction false} ExecuteReadsOnlyFields(c: Condition, r1: map<string, string>, r2: map<string, string>)
    requires forall f :: f in Fields(c) ==> (f in r1 <==> f in r2) && (f in r1 ==> r1[f] == r2[f])
    ensures Execute(c, r1) == Execute(c, r2)
  {
    match c
    case Simple(_, _, _) =>
    case Complex(left, _, right) =>
      ExecuteReadsOnlyFields(right, r1, r2);
      if left.Some? {
        ExecuteReadsOnlyFields(left.value, r1, r2);
      }
  }

  /** The trees the evaluator accepts on a register: every field present and
      comparable with its literal, and every `And`/`Or` with a left operand. */
  predicate Evaluable(c: Condition, register: map<string, string>)
  {
    match c
    case Simple(field, _, value) =>
      field in register && IsNumber(register[field]) == IsNumber(value)
    case Complex(left, operator, right) =>
      && (operator != Not ==> left.Some? && Evaluable(left.value, register))
      && Evaluable(right, register)
  }

  /** Evaluation succeeds exactly on evaluable trees. */
  lemma {:induction false} ExecuteOkIffEvaluable(c: Condition, register: map<string, string>)
    ensures Execute(c, register).Ok? <==> Evaluable(c, register)
  {
    match c
    case Simple(_, _, _) =>
    case Complex(left, operator, right) =>
      ExecuteOkIffEvaluable(right, register);
      if left.Some? {
        ExecuteOkIffEvaluable(left.value, register);
      }
  }

  // ---------------------------------------------------------------------------
  // The evaluator on the scenarios of the unit tests

  lemma ExecuteSimpleExamples()
    ensures var reg := map["name" := "Alen", "lastname" := "Davies", "age" := "24"];
            && Execute(Simple("age", Greater, "18"), reg) == Ok(true)
            && Execute(Simple("age", Greater, "40"), reg) == Ok(false)
            && Execute(Complex(None, Not, Simple("name", Equal, "Emily")), reg) == Ok(true)
  {
    assert !IsDigit('A') && !IsDigit('E');
    assert IsNumber("24") && IsNumber("18") && IsNumber("40");
    assert LexLess("18", "24") && !LexLess("40", "24");
  }

  /** NOT (city = Gaiman AND (age > 18 OR lastname = Davies)) */
  lemma ExecuteNestedNotExample()
    ensures var reg := map["name" := "Alen", "lastname" := "Davies", "age" := "24", "city" := "Gaiman"];
            Execute(Complex(None, Not,
              Complex(Some(Simple("city", Equal, "Gaiman")), And,
                Complex(Some(Simple("age", Greater, "18")), Or, Simple("lastname", Equal, "Davies")))), reg)
            == Ok(false)
  {
    assert !IsDigit('D') && !IsDigit('G');
    assert IsNumber("24") && IsNumber("18");
    assert LexLess("18", "24");
  }

  /** NOT age > 40 AND city = Gaiman */
  lemma ExecuteNotAndExample()
    ensures var reg := map["name" := "Alen", "lastname" := "Davies", "age" := "24", "city" := "Gaiman"];
            Execute(Complex(Some(Complex(None, Not, Simple("age", Greater, "40"))), And,
              Simple("city", Equal, "Gaiman")), reg)
            == Ok(true)
  {
    assert !IsDigit('G');
    assert IsNumber("24") && IsNumber("40");
    assert !LexLess("40", "24");
  }

  /** city = Gaiman AND (age > 30 OR lastname = Davies) */
  lemma ExecuteAndOrExample()
    ensures var reg := map["name" := "Alen", "lastname" := "Davies", "age" := "24", "city" := "Gaiman"];
            Execute(Complex(Some(Simple("city", Equal, "Gaiman")), And,
              Complex(Some(Simple("age", Greater, "30")), Or, Simple("lastname", Equal, "Davies"))), reg)
            == Ok(true)
  {
    assert !IsDigit('D') && !IsDigit('G');
    assert IsNumber("24") && IsNumber("30");
    assert !LexLess("30", "24");
  }
}
