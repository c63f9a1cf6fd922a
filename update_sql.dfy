/** The `UPDATE` statement: its recogniser, the assignment of the `SET` pairs
    to the rows the `WHERE` clause admits, and the row loop over a table. */
module UpdateClause {
  import opened Errors
  import opened Strings
  import opened Registers
  import opened Tables
  import opened Utils
  import opened WhereClause
  import opened SetClause

  datatype Update = Update(tableName: string, setClause: Set, whereClause: Option<Where>)

  // ---------------------------------------------------------------------------
  // Recognising the statement

  /** The statement has its fixed frame: six tokens at least, `UPDATE` first,
      a non-empty table name, `SET` third. */
  predicate Framed(tokens: seq<string>)
  {
    |tokens| >= 6 && IsUpdate(tokens[0]) && tokens[1] != "" && IsSet(tokens[2])
  }

  /** Where the `SET` segment ends and the `WHERE` segment begins. */
  function WhereStart(tokens: seq<string>): (w: nat)
    requires |tokens| >= 3 && IsSet(tokens[2])
    ensures 2 < w <= |tokens|
    ensures w < |tokens| ==> IsWhere(tokens[w])
    ensures forall k :: 2 <= k < w ==> !IsWhere(tokens[k])
  {
    FirstIndexOf(tokens, "WHERE", 2)
  }

  /** `Update::new_from_tokens`: the keyword checks at indices 0 and 2, the
      table name at index 1, the `SET` segment up to `WHERE` and the `WHERE`
      segment to the end; the `WHERE` clause is recognised before the `SET`
      clause. */
  method NewFromTokens(tokens: seq<string>, parse: ConditionParser) returns (r: Result<Update>)
    ensures !Framed(tokens) ==> r == Err(InvalidSyntax)
    ensures Framed(tokens) ==>
              var w := WhereStart(tokens);
              var setTokens := tokens[2..w];
              var whereTokens := tokens[w..];
              var whereResult := WhereClause.NewFromTokens(whereTokens, parse);
              && (whereTokens != [] && whereResult.Err? ==> r == Err(whereResult.error))
              && (whereTokens == [] || whereResult.Ok? ==>
                    && (r.Err? <==> "=" !in setTokens)
                    && (r.Err? ==> r.error == InvalidSyntax))
              && (r.Ok? ==>
                    && r.value.tableName == tokens[1]
                    && r.value.whereClause == (if whereTokens == [] then None else Some(whereResult.value))
                    && r.value.setClause.pairs == PairsBelow(setTokens, |setTokens|))
  {
    if |tokens| < 6 {
      return Err(InvalidSyntax);
    }
    var whereTokens: seq<string> := [];
    var setTokens: seq<string> := [];
    var tableName := "";
    var i := 0;
    while i < |tokens|
      invariant 0 <= i <= 2 || i == |tokens| + 1
      invariant i == 0 ==> tableName == ""
      invariant i >= 1 ==> IsUpdate(tokens[0]) && tableName == tokens[1]
      invariant i <= 2 ==> setTokens == [] && whereTokens == []
      invariant i > 2 ==> IsSet(tokens[2]) && setTokens == tokens[2..WhereStart(tokens)] &&
                          whereTokens == tokens[WhereStart(tokens)..]
      decreases |tokens| + 1 - i
    {
      if (i == 0 && !IsUpdate(tokens[i])) || (i == 2 && !IsSet(tokens[i])) {
        return Err(InvalidSyntax);
      }
      if i == 0 && IsUpdate(tokens[i]) && i + 1 < |tokens| {
        tableName := tokens[i + 1];
      }
      if i == 2 && IsSet(tokens[i]) {
        setTokens, whereTokens, i := SplitAtWhere(tokens);
      }
      i := i + 1;
    }
    if tableName == "" || setTokens == [] {
      return Err(InvalidSyntax);
    }
    var whereClause: Option<Where> := None;
    if whereTokens != [] {
      var w := WhereClause.NewFromTokens(whereTokens, parse);
      if w.Err? {
        return Err(w.error);
      }
      whereClause := Some(w.value);
    }
    var setClause := SetClause.NewFromTokens(setTokens);
    if setClause.Err? {
      return Err(setClause.error);
    }
    return Ok(Update(tableName, setClause.value, whereClause));
  }

  /** The inner loops of the recogniser, entered on the `SET` at index 2:
      the tokens up to the first `WHERE`, then every token from there on. */
  method SplitAtWhere(tokens: seq<string>) returns (setTokens: seq<string>, whereTokens: seq<string>, i: nat)
    requires |tokens| >= 3 && IsSet(tokens[2])
    ensures setTokens == tokens[2..WhereStart(tokens)]
    ensures whereTokens == tokens[WhereStart(tokens)..]
    ensures i == |tokens|
  {
    setTokens := [];
    whereTokens := [];
    i := 2;
    while i < |tokens| && !IsWhere(tokens[i])
      invariant 2 <= i <= WhereStart(tokens)
      invariant setTokens == tokens[2..i]
      decreases |tokens| - i
    {
      assert tokens[2..i + 1] == tokens[2..i] + [tokens[i]];
      setTokens := setTokens + [tokens[i]];
      i := i + 1;
    }
    ghost var w := i;
    if i < |tokens| && IsWhere(tokens[i]) {
      while i < |tokens|
        invariant w <= i <= |tokens|
        invariant whereTokens == tokens[w..i]
        decreases |tokens| - i
      {
        assert tokens[w..i + 1] == tokens[w..i] + [tokens[i]];
        whereTokens := whereTokens + [tokens[i]];
        i := i + 1;
      }
      assert tokens[w..i] == tokens[w..];
    }
  }

  /** The recogniser's own test for an empty `SET` segment never fires: the
      segment always holds the `SET` keyword. */
  lemma SetSegmentNonEmpty(tokens: seq<string>)
    requires Framed(tokens)
    ensures |tokens[2..WhereStart(tokens)]| >= 1 && tokens[2..WhereStart(tokens)][0] == "SET"
  {
  }

  // ---------------------------------------------------------------------------
  // Assigning the `SET` pairs

  /** The register after writing the pairs in order: a later pair for the
      same column overwrites an earlier one. */
  function ApplySet(reg: Register, pairs: seq<(string, string)>): (r: Register)
    ensures r.Keys == reg.Keys + set j | 0 <= j < |pairs| :: pairs[j].0
    decreases |pairs|
  {
    if pairs == [] then reg
    else
      var last := pairs[|pairs| - 1];
      ApplySet(reg, pairs[..|pairs| - 1])[last.0 := last.1]
  }

  /** A column no pair names keeps its value. */
  lemma {:induction false} ApplySetUntouched(reg: Register, pairs: seq<(string, string)>, c: string)
    requires forall j :: 0 <= j < |pairs| ==> pairs[j].0 != c
    requires c in reg
    ensures c in ApplySet(reg, pairs) && ApplySet(reg, pairs)[c] == reg[c]
    decreases |pairs|
  {
    if pairs != [] {
      ApplySetUntouched(reg, pairs[..|pairs| - 1], c);
    }
  }

  /** A column takes the value of the last pair that names it. */
  lemma {:induction false} ApplySetLastWins(reg: Register, pairs: seq<(string, string)>, j: nat)
    requires j < |pairs|
    requires forall k :: j < k < |pairs| ==> pairs[k].0 != pairs[j].0
    ensures ApplySet(reg, pairs)[pairs[j].0] == pairs[j].1
    decreases |pairs|
  {
    if j < |pairs| - 1 {
      var init := pairs[..|pairs| - 1];
      ApplySetLastWins(reg, init, j);
      assert init[j] == pairs[j];
    }
  }

  // ---------------------------------------------------------------------------
  // Evaluating the statement on one line

  /** The result of `execute` on one line: the line's register, with the
      `SET` pairs written when the `WHERE` clause admits it. */
  function Row(u: Update, header: seq<string>, line: string): (r: Result<Register>)
    requires |Split(line, ',')| >= |header|
    ensures var reg := Zip(header, Split(line, ','));
            && (r.Err? <==> Admits(u.whereClause, reg).Err?)
            && (r.Err? ==> r.error == Admits(u.whereClause, reg).error)
            && (Admits(u.whereClause, reg) == Ok(true) ==> r == Ok(ApplySet(reg, u.setClause.pairs)))
            && (Admits(u.whereClause, reg) == Ok(false) ==> r == Ok(reg))
  {
    var reg := Zip(header, Split(line, ','));
    var admitted :- Admits(u.whereClause, reg);
    Ok(if admitted then ApplySet(reg, u.setClause.pairs) else reg)
  }

  /** A header column that no pair names keeps the line's value; every row
      keeps every header column. */
  lemma RowKeepsUnnamedColumns(u: Update, header: seq<string>, line: string, c: string)
    requires |Split(line, ',')| >= |header| && Row(u, header, line).Ok?
    requires c in header
    requires forall j :: 0 <= j < |u.setClause.pairs| ==> u.setClause.pairs[j].0 != c
    ensures c in Row(u, header, line).value
    ensures Row(u, header, line).value[c] == Zip(header, Split(line, ','))[c]
  {
    var reg := Zip(header, Split(line, ','));
    ApplySetUntouched(reg, u.setClause.pairs, c);
  }

  /** An admitted row takes the value of the last pair naming a column. */
  lemma RowAssigns(u: Update, header: seq<string>, line: string, j: nat)
    requires |Split(line, ',')| >= |header|
    requires Admits(u.whereClause, Zip(header, Split(line, ','))) == Ok(true)
    requires j < |u.setClause.pairs|
    requires forall k :: j < k < |u.setClause.pairs| ==> u.setClause.pairs[k].0 != u.setClause.pairs[j].0
    ensures Row(u, header, line).Ok?
    ensures Row(u, header, line).value[u.setClause.pairs[j].0] == u.setClause.pairs[j].1
  {
    ApplySetLastWins(Zip(header, Split(line, ',')), u.setClause.pairs, j);
  }

  /** `execute`: the line's register, the `WHERE` test, and the `SET` pairs
      written in order. */
  method Execute(u: Update, line: string, header: seq<string>) returns (r: Result<Register>)
    requires |Split(line, ',')| >= |header|
    ensures r == Row(u, header, line)
  {
    var register := FromLine(line, header);
    var admitted := true;
    if u.whereClause.Some? {
      var opResult := WhereClause.Execute(u.whereClause.value, register);
      if opResult.Err? {
        return Err(opResult.error);
      }
      admitted := opResult.value;
    }
    if admitted {
      ghost var original := register;
      var pairs := u.setClause.pairs;
      for k := 0 to |pairs|
        invariant register == ApplySet(original, pairs[..k])
      {
        assert pairs[..k + 1][..k] == pairs[..k];
        register := register[pairs[k].0 := pairs[k].1];
      }
      assert pairs[..|pairs|] == pairs;
    }
    return Ok(register);
  }

  // ---------------------------------------------------------------------------
  // The row loop of `apply_to_table`

  /** The registers the row loop collects from the data lines, in order: the
      non-empty results of `execute`, or its first error. */
  function Updated(u: Update, header: seq<string>, data: seq<string>): Result<seq<Register>>
    requires Fits(header, data)
    decreases |data|
  {
    if data == [] then Ok([])
    else
      var prev :- Updated(u, header, data[..|data| - 1]);
      var reg :- Row(u, header, data[|data| - 1]);
      Ok(if reg == map[] then prev else prev + [reg])
  }

  /** Once a prefix of the lines fails, the whole loop fails with its error. */
  lemma {:induction false} UpdatedPrefixErr(u: Update, header: seq<string>, data: seq<string>, n: nat)
    requires Fits(header, data) && n <= |data|
    requires Updated(u, header, data[..n]).Err?
    ensures Updated(u, header, data) == Updated(u, header, data[..n])
    decreases |data| - n
  {
    if n < |data| {
      var longer := data[..n + 1];
      assert longer[..|longer| - 1] == data[..n];
      UpdatedPrefixErr(u, header, data, n + 1);
    } else {
      assert data[..n] == data;
    }
  }

  /** Under a non-empty header every data line yields one register, so the
      table keeps all its rows, each updated or not as its line's `Row`. */
  lemma {:induction false} UpdatedKeepsEveryRow(u: Update, header: seq<string>, data: seq<string>)
    requires |header| > 0 && Fits(header, data) && Updated(u, header, data).Ok?
    ensures |Updated(u, header, data).value| == |data|
    ensures forall k :: 0 <= k < |data| ==>
              Row(u, header, data[k]).Ok? && Updated(u, header, data).value[k] == Row(u, header, data[k]).value
    decreases |data|
  {
    if data != [] {
      var init := data[..|data| - 1];
      var last := data[|data| - 1];
      UpdatedKeepsEveryRow(u, header, init);
      var reg := Row(u, header, last).value;
      assert header[0] in reg;
      var rows := Updated(u, header, init).value + [reg];
      assert Updated(u, header, data) == Ok(rows);
      forall k | 0 <= k < |data|
        ensures Row(u, header, data[k]).Ok? && rows[k] == Row(u, header, data[k]).value
      {
        if k < |init| {
          assert data[k] == init[k];
        }
      }
    }
  }

  /** `apply_to_table` over the table's lines, header first. */
  method ApplyToTable(u: Update, lines: seq<string>) returns (r: Result<Table>)
    requires |lines| > 0 ==> Fits(Split(lines[0], ','), lines[1..])
    ensures |lines| == 0 ==> r == Ok(Table([], []))
    ensures |lines| > 0 ==>
              var header := Split(lines[0], ',');
              var rows := Updated(u, header, lines[1..]);
              && (rows.Err? ==> r == Err(rows.error))
              && (rows.Ok? ==> r == Ok(Table(header, rows.value)))
  {
    var columns: seq<string> := [];
    var registers: seq<Register> := [];
    for idx := 0 to |lines|
      invariant idx == 0 ==> columns == [] && registers == []
      invariant idx > 0 ==> columns == Split(lines[0], ',')
      invariant idx > 0 ==> Updated(u, columns, lines[1..idx]) == Ok(registers)
    {
      var line := lines[idx];
      if idx == 0 {
        columns := Split(line, ',');
        assert lines[1..1] == [];
      } else {
        FitsUpTo(columns, lines, idx);
        var reg := Execute(u, line, columns);
        if reg.Err? {
          UpdatedPrefixErr(u, columns, lines[1..], idx);
          return Err(reg.error);
        }
        if reg.value != map[] {
          registers := registers + [reg.value];
        }
      }
    }
    if |lines| > 0 {
      assert lines[1..|lines|] == lines[1..];
    }
    return Ok(Table(columns, registers));
  }
}
