/** Helpers shared by the clauses: number recognition, keyword tests, keyword
    search in a token sequence, and serialisation of a table to CSV lines. */
module Utils {
  import opened Errors
  import opened Strings
  import opened Registers
  import opened Tables

  // ---------------------------------------------------------------------------
  // is_number: `token.parse::<i32>().is_ok()`

  const I32Max: nat := 0x7fff_ffff

  function DigitValue(c: char): nat
    requires IsDigit(c)
  {
    c as int - '0' as int
  }

  predicate AllDigits(d: string)
  {
    forall k :: 0 <= k < |d| ==> IsDigit(d[k])
  }

  /** Value of the digit string `d` read left to right, starting from `acc`. */
  function ValueFrom(acc: nat, d: string): nat
    requires AllDigits(d)
    decreases |d|
  {
    if |d| == 0 then acc else ValueFrom(acc * 10 + DigitValue(d[0]), d[1..])
  }

  /** The digit loop of Rust's integer parser: a non-digit, or a partial value
      above `limit` (an overflow of the checked arithmetic), stops it. */
  function Accumulate(acc: nat, d: string, limit: nat): (r: Option<nat>)
    ensures r.Some? ==> AllDigits(d)
    ensures r.Some? && acc <= limit ==> r.value <= limit
    decreases |d|
  {
    if |d| == 0 then Some(acc)
    else if !IsDigit(d[0]) then None
    else
      var next := acc * 10 + DigitValue(d[0]);
      if next > limit then None else Accumulate(next, d[1..], limit)
  }

  /** `t.parse::<i32>()`: an optional `+` or `-`, then digits; a lone sign, a
      non-digit or an out-of-range value is an error. */
  function ParseI32(t: string): (r: Option<int>)
    ensures r.Some? ==> -(I32Max as int + 1) <= r.value <= I32Max
    ensures r.Some? ==> |t| > 0 && forall k :: 1 <= k < |t| ==> IsDigit(t[k])
  {
    if |t| == 0 then None
    else if (t[0] == '+' || t[0] == '-') && |t| == 1 then None
    else if t[0] == '-' then
      match Accumulate(0, t[1..], I32Max + 1)
      case Some(v) => Some(-(v as int))
      case None => None
    else
      match Accumulate(0, if t[0] == '+' then t[1..] else t, I32Max)
      case Some(v) => Some(v)
      case None => None
  }

  /** `is_number`: the token parses as a 32-bit signed integer, so it is a
      sign or a digit followed by digits only. */
  predicate IsNumber(token: string)
    ensures IsNumber(token) ==> |token| > 0 && forall k :: 1 <= k < |token| ==> IsDigit(token[k])
  {
    ParseI32(token).Some?
  }

  /** Reference definition: an optionally signed decimal numeral whose value
      lies in the range of a 32-bit signed integer. */
  predicate DenotesI32(t: string)
  {
    && |t| > 0
    && var body := if t[0] == '-' || t[0] == '+' then t[1..] else t;
    && |body| > 0
    && AllDigits(body)
    && ValueFrom(0, body) <= (if t[0] == '-' then I32Max + 1 else I32Max)
  }

  lemma {:induction false} ValueFromAtLeast(acc: nat, d: string)
    requires AllDigits(d)
    ensures ValueFrom(acc, d) >= acc
    decreases |d|
  {
    if |d| > 0 {
      ValueFromAtLeast(acc * 10 + DigitValue(d[0]), d[1..]);
    }
  }

  /** The checked digit loop succeeds exactly when every character is a digit
      and the whole value stays within the limit, and then yields that value. */
  lemma {:induction false} AccumulateExact(acc: nat, d: string, limit: nat)
    requires acc <= limit
    ensures Accumulate(acc, d, limit) ==
            if AllDigits(d) && ValueFrom(acc, d) <= limit then Some(ValueFrom(acc, d)) else None
    decreases |d|
  {
    if |d| > 0 && IsDigit(d[0]) {
      var next := acc * 10 + DigitValue(d[0]);
      assert AllDigits(d) <==> AllDigits(d[1..]);
      if next > limit {
        if AllDigits(d) {
          ValueFromAtLeast(next, d[1..]);
        }
      } else {
        AccumulateExact(next, d[1..], limit);
      }
    }
  }

  /** `is_number` holds exactly for the numerals of 32-bit signed integers, and
      the parsed value is the numeral's value with its sign. */
  lemma IsNumberIffDenotesI32(t: string)
    ensures IsNumber(t) <==> DenotesI32(t)
    ensures IsNumber(t) ==>
              var body := if t[0] == '-' || t[0] == '+' then t[1..] else t;
              ParseI32(t).value == if t[0] == '-' then -(ValueFrom(0, body) as int) else ValueFrom(0, body)
  {
    if |t| > 0 {
      var body := if t[0] == '-' || t[0] == '+' then t[1..] else t;
      AccumulateExact(0, body, if t[0] == '-' then I32Max + 1 else I32Max);
    }
  }

  lemma IsNumberExamples()
    ensures IsNumber("123") && !IsNumber("hola")
    ensures !IsNumber("-") && !IsNumber("")
  {
    assert !IsDigit('h');
  }



  // ---------------------------------------------------------------------------
  // Keyword tests: exact, case-sensitive equality

  predicate IsAnd(token: string) { token == "AND" }
  predicate IsOr(token: string) { token == "OR" }
  predicate IsNot(token: string) { token == "NOT" }
  predicate IsLeftParen(token: string) { token == "(" }
  predicate IsRightParen(token: string) { token == ")" }
  predicate IsWhere(token: string) { token == "WHERE" }
  predicate IsSelect(token: string) { token == "SELECT" }
  predicate IsUpdate(token: string) { token == "UPDATE" }
  predicate IsInsert(token: string) { token == "INSERT" }
  predicate IsInto(token: string) { token == "INTO" }
  predicate IsFrom(token: string) { token == "FROM" }
  predicate IsOrder(token: string) { token == "ORDER" }
  predicate IsBy(token: string) { token == "BY" }
  predicate IsDelete(token: string) { token == "DELETE" }
  predicate IsSet(token: string) { token == "SET" }
  predicate IsValues(token: string) { token == "VALUES" }

  /** The first index at or after `from` holding `keyword`, or `|tokens|`. */
  function FirstIndexOf(tokens: seq<string>, keyword: string, from: nat): (k: nat)
    requires from <= |tokens|
    ensures from <= k <= |tokens|
    ensures forall j :: from <= j < k ==> tokens[j] != keyword
    ensures k < |tokens| ==> tokens[k] == keyword
    decreases |tokens| - from
  {
    if from == |tokens| || tokens[from] == keyword then from
    else FirstIndexOf(tokens, keyword, from + 1)
  }

  // ---------------------------------------------------------------------------
  // table_to_csv

  /** Some register of `registers` lacks a column of `columns`. */
  predicate SomeRegisterLacks(registers: seq<Register>, columns: seq<string>)
  {
    exists k :: 0 <= k < |registers| && !HasColumns(registers[k], columns)
  }

  /** `table_to_csv`: the header line `column_order` joined by commas, then one
      line per register in `column_order`; `Error` if a register lacks a column. */
  method TableToCsv(table: Table, columnOrder: seq<string>) returns (r: Result<seq<string>>)
    ensures r.Err? <==> SomeRegisterLacks(table.registers, columnOrder)
    ensures r.Err? ==> r.error == Error
    ensures r.Ok? ==>
              && |r.value| == |table.registers| + 1
              && r.value[0] == Join(columnOrder, ',')
              && forall k :: 0 <= k < |table.registers| ==>
                   HasColumns(table.registers[k], columnOrder) &&
                   r.value[k + 1] == Join(CsvValues(table.registers[k], columnOrder), ',')
  {
    var result := [Join(columnOrder, ',')];
    for k := 0 to |table.registers|
      invariant |result| == k + 1 && result[0] == Join(columnOrder, ',')
      invariant forall j :: 0 <= j < k ==>
                  HasColumns(table.registers[j], columnOrder) &&
                  result[j + 1] == Join(CsvValues(table.registers[j], columnOrder), ',')
    {
      var line := ToCsv(table.registers[k], columnOrder);
      if line.Err? {
        return Err(line.error);
      }
      result := result + [line.value];
    }
    return Ok(result);
  }
}
