/** The `DELETE` statement: its recogniser, the retention of the rows whose
    condition is false, and the row loop over a table. */
module DeleteClause {
  import opened Errors
  import opened Strings
  import opened Registers
  import opened Tables
  import opened Utils
  import opened WhereClause

  datatype Delete = Delete(tableName: string, whereClause: Option<Where>)

  // ---------------------------------------------------------------------------
  // Recognising the statement

  /** The `WHERE` segment: everything from index 3 on when a `WHERE` stands
      there, and nothing otherwise. */
  function WhereSegment(tokens: seq<string>): (w: seq<string>)
    ensures w != [] ==> |tokens| > 3 && IsWhere(tokens[3]) && w == tokens[3..]
    ensures w == [] <==> !(|tokens| > 3 && IsWhere(tokens[3]))
  {
    if |tokens| > 3 && IsWhere(tokens[3]) then tokens[3..] else []
  }

  /** `Delete::new_from_tokens`: `DELETE` at index 0, `FROM` at index 1, the
      table name at index 2 and a `WHERE` recognised only at index 3; any
      other tokens are ignored. */
  method NewFromTokens(tokens: seq<string>, parse: ConditionParser) returns (r: Result<Delete>)
    ensures |tokens| < 3 || !IsDelete(tokens[0]) || !IsFrom(tokens[1]) || tokens[2] == "" ==>
              r == Err(InvalidSyntax)
    ensures |tokens| >= 3 && IsDelete(tokens[0]) && IsFrom(tokens[1]) && tokens[2] != "" ==>
              var whereTokens := WhereSegment(tokens);
              var whereResult := WhereClause.NewFromTokens(whereTokens, parse);
              && (r.Err? <==> whereTokens != [] && whereResult.Err?)
              && (r.Err? ==> r.error == whereResult.error)
              && (r.Ok? ==>
                    && r.value.tableName == tokens[2]
                    && r.value.whereClause == (if whereTokens == [] then None else Some(whereResult.value)))
  {
    if |tokens| < 3 {
      return Err(InvalidSyntax);
    }
    var whereTokens: seq<string> := [];
    var i := 0;
    var tableName := "";
    while i < |tokens|
      invariant 0 <= i <= |tokens| + 1
      invariant i <= 1 ==> tableName == ""
      invariant i >= 1 ==> IsDelete(tokens[0])
      invariant i >= 2 ==> IsFrom(tokens[1]) && tableName == tokens[2]
      invariant i <= 3 ==> whereTokens == []
      invariant i > 3 ==> whereTokens == WhereSegment(tokens)
      invariant i == |tokens| + 1 ==> |tokens| <= 3 || IsWhere(tokens[3])
      decreases |tokens| + 1 - i
    {
      if (i == 0 && !IsDelete(tokens[i])) || (i == 1 && !IsFrom(tokens[i])) {
        return Err(InvalidSyntax);
      }
      if i == 1 && IsFrom(tokens[i]) && i + 1 < |tokens| {
        tableName := tokens[i + 1];
      }
      if i == 3 && IsWhere(tokens[i]) {
        while i < |tokens|
          invariant 3 <= i <= |tokens|
          invariant whereTokens == tokens[3..i]
          decreases |tokens| - i
        {
          assert tokens[3..i + 1] == tokens[3..i] + [tokens[i]];
          whereTokens := whereTokens + [tokens[i]];
          i := i + 1;
        }
        assert tokens[3..i] == tokens[3..];
      }
      i := i + 1;
    }
    if |tokens| == 3 {
      assert whereTokens == WhereSegment(tokens);
    }
    if tableName == "" {
      return Err(InvalidSyntax);
    }
    var whereClause: Option<Where> := None;
    if whereTokens != [] {
      var w := WhereClause.NewFromTokens(whereTokens, parse);
      if w.Err? {
        return Err(w.error);
      }
      whereClause := Some(w.value);
    }
    return Ok(Delete(tableName, whereClause));
  }

  /** A `WHERE` with no condition after it makes the statement invalid. */
  lemma BareWhere(tokens: seq<string>, parse: ConditionParser)
    requires |tokens| == 4 && IsWhere(tokens[3])
    ensures WhereClause.NewFromTokens(WhereSegment(tokens), parse) == Err(InvalidSyntax)
  {
  }

  // ---------------------------------------------------------------------------
  // Evaluating the statement on one line

  /** The result of `execute` on one line: the line's register when the
      condition is false, the empty register when it is true or absent. */
  function Row(d: Delete, header: seq<string>, line: string): (r: Result<Register>)
    requires |Split(line, ',')| >= |header|
    ensures d.whereClause.None? ==> r == Ok(map[])
    ensures d.whereClause.Some? ==>
              var result := WhereClause.Execute(d.whereClause.value, Zip(header, Split(line, ',')));
              && (r.Err? <==> result.Err?)
              && (r.Err? ==> r.error == result.error)
  {
    match d.whereClause
    case None => Ok(map[])
    case Some(w) =>
      var reg := Zip(header, Split(line, ','));
      var matched :- WhereClause.Execute(w, reg);
      Ok(if matched then map[] else reg)
  }

  /** A row of a table with a header is kept, and kept in full, exactly when
      the condition evaluates to false. */
  lemma RowKeptIff(d: Delete, header: seq<string>, line: string)
    requires |header| > 0 && |Split(line, ',')| >= |header| && d.whereClause.Some?
    ensures var r := Row(d, header, line);
            r.Ok? && r.value != map[] <==>
              WhereClause.Execute(d.whereClause.value, Zip(header, Split(line, ','))) == Ok(false)
    ensures var r := Row(d, header, line);
            r.Ok? && r.value != map[] ==> r.value == Zip(header, Split(line, ','))
  {
    assert header[0] in Zip(header, Split(line, ','));
  }

  /** `execute`: the line's register, the `WHERE` test, and the copy of every
      header column into the result when the condition is false. */
  method Execute(d: Delete, line: string, header: seq<string>) returns (r: Result<Register>)
    requires |Split(line, ',')| >= |header|
    ensures r == Row(d, header, line)
  {
    var register := FromLine(line, header);
    var result: Register := map[];
    if d.whereClause.Some? {
      var opResult := WhereClause.Execute(d.whereClause.value, register);
      if opResult.Err? {
        return Err(opResult.error);
      }
      if !opResult.value {
        result := CopyColumns(register, header);
        assert result == register;
      }
    }
    return Ok(result);
  }

  // ---------------------------------------------------------------------------
  // The row loop of `apply_to_table`

  /** The registers the row loop collects from the data lines, in order: the
      non-empty results of `execute`, or its first error. */
  function Remaining(d: Delete, header: seq<string>, data: seq<string>): Result<seq<Register>>
    requires Fits(header, data)
    decreases |data|
  {
    if data == [] then Ok([])
    else
      var prev :- Remaining(d, header, data[..|data| - 1]);
      var reg :- Row(d, header, data[|data| - 1]);
      Ok(if reg == map[] then prev else prev + [reg])
  }

  /** Once a prefix of the lines fails, the whole loop fails with its error. */
  lemma {:induction false} RemainingPrefixErr(d: Delete, header: seq<string>, data: seq<string>, n: nat)
    requires Fits(header, data) && n <= |data|
    requires Remaining(d, header, data[..n]).Err?
    ensures Remaining(d, header, data) == Remaining(d, header, data[..n])
    decreases |data| - n
  {
    if n < |data| {
      var longer := data[..n + 1];
      assert longer[..|longer| - 1] == data[..n];
      RemainingPrefixErr(d, header, data, n + 1);
    } else {
      assert data[..n] == data;
    }
  }

  /** Every remaining register is a whole line whose condition is false. */
  lemma {:induction false} RemainingAreUnmatched(d: Delete, header: seq<string>, data: seq<string>)
    requires |header| > 0 && Fits(header, data) && Remaining(d, header, data).Ok?
    requires d.whereClause.Some?
    ensures forall k :: 0 <= k < |Remaining(d, header, data).value| ==>
              exists j :: 0 <= j < |data| &&
                Remaining(d, header, data).value[k] == Zip(header, Split(data[j], ',')) &&
                WhereClause.Execute(d.whereClause.value, Zip(header, Split(data[j], ','))) == Ok(false)
    decreases |data|
  {
    if data != [] {
      var init := data[..|data| - 1];
      var last := data[|data| - 1];
      RemainingAreUnmatched(d, header, init);
      RowKeptIff(d, header, last);
      var prev := Remaining(d, header, init).value;
      forall k | 0 <= k < |prev|
        ensures exists j :: 0 <= j < |data| &&
                  prev[k] == Zip(header, Split(data[j], ',')) &&
                  WhereClause.Execute(d.whereClause.value, Zip(header, Split(data[j], ','))) == Ok(false)
      {
        var j :| 0 <= j < |init| &&
                 prev[k] == Zip(header, Split(init[j], ',')) &&
                 WhereClause.Execute(d.whereClause.value, Zip(header, Split(init[j], ','))) == Ok(false);
        assert init[j] == data[j];
      }
    }
  }

  /** `apply_to_table` over the table's lines, header first: with no `WHERE`
      clause the header alone comes back, otherwise the remaining rows. */
  method ApplyToTable(d: Delete, lines: seq<string>) returns (r: Result<Table>)
    requires |lines| > 0 ==> Fits(Split(lines[0], ','), lines[1..])
    ensures |lines| == 0 ==> r == Ok(Table([], []))
    ensures |lines| > 0 && d.whereClause.None? ==> r == Ok(Table(Split(lines[0], ','), []))
    ensures |lines| > 0 && d.whereClause.Some? ==>
              var header := Split(lines[0], ',');
              var rows := Remaining(d, header, lines[1..]);
              && (rows.Err? ==> r == Err(rows.error))
              && (rows.Ok? ==> r == Ok(Table(header, rows.value)))
  {
    var columns: seq<string> := [];
    var registers: seq<Register> := [];
    for idx := 0 to |lines|
      invariant idx == 0 ==> columns == [] && registers == []
      invariant idx > 0 ==> columns == Split(lines[0], ',') && d.whereClause.Some?
      invariant idx > 0 ==> Remaining(d, columns, lines[1..idx]) == Ok(registers)
    {
      var line := lines[idx];
      if idx == 0 {
        columns := Split(line, ',');
        if d.whereClause.None? {
          return Ok(Table(columns, registers));
        }
        assert lines[1..1] == [];
      } else {
        FitsUpTo(columns, lines, idx);
        var reg := Execute(d, line, columns);
        if reg.Err? {
          RemainingPrefixErr(d, columns, lines[1..], idx);
          return Err(reg.error);
        }
        if reg.value != map[] {
          registers := registers + [reg.value];
        }
      }
    }
    if |lines| > 0 {
      assert lines[1..|lines|] == lines[1..];
    }
    return Ok(Table(columns, registers));
  }
}
