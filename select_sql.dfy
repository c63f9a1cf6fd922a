/** The `SELECT` statement: its recogniser, which threads a cursor through
    three parse helpers, and its evaluation over the lines of a table. */
module SelectClause {
  import opened Errors
  import opened Strings
  import opened Registers
  import opened Tables
  import opened Utils
  import opened Conditions
  import opened WhereClause
  import OrderByClause

  datatype Select = Select(tableName: string, columns: seq<string>,
                           whereClause: Option<Where>, orderbyClause: Option<OrderByClause.OrderBy>)

  // ---------------------------------------------------------------------------
  // Recognising the statement

  /** The position of the first `FROM` after `SELECT`. */
  function FromIndex(tokens: seq<string>): (f: nat)
    requires |tokens| >= 1
    ensures 1 <= f <= |tokens|
  {
    FirstIndexOf(tokens, "FROM", 1)
  }

  /** What the recogniser demands of its input to index safely: once the
      first token is `SELECT`, a `FROM` follows and a table name follows it. */
  predicate Indexable(tokens: seq<string>)
  {
    |tokens| >= 4 && IsSelect(tokens[0]) ==> FromIndex(tokens) + 1 < |tokens|
  }

  /** `parse_columns`: the tokens after `SELECT` up to the first `FROM`, with
      the cursor left on that `FROM`. */
  method ParseColumns(tokens: seq<string>, i: nat) returns (r: Result<seq<string>>, next: nat)
    requires i < |tokens|
    requires IsSelect(tokens[i]) ==> FirstIndexOf(tokens, "FROM", i + 1) < |tokens|
    ensures !IsSelect(tokens[i]) ==> r == Err(InvalidSyntax) && next == i
    ensures IsSelect(tokens[i]) ==>
              next == FirstIndexOf(tokens, "FROM", i + 1) && r == Ok(tokens[i + 1..next])
  {
    var columns: seq<string> := [];
    next := i;
    if IsSelect(tokens[next]) {
      if next < |tokens| {
        next := next + 1;
        ghost var f := FirstIndexOf(tokens, "FROM", i + 1);
        while !IsFrom(tokens[next]) && next < |tokens|
          invariant i + 1 <= next <= f
          invariant columns == tokens[i + 1..next]
          decreases f - next
        {
          assert tokens[i + 1..next + 1] == tokens[i + 1..next] + [tokens[next]];
          columns := columns + [tokens[next]];
          next := next + 1;
        }
      }
    } else {
      return Err(InvalidSyntax), next;
    }
    return Ok(columns), next;
  }

  /** `parse_table_name`: on a `FROM`, the token after it, with the cursor
      moved past both. */
  method ParseTableName(tokens: seq<string>, i: nat) returns (r: Result<string>, next: nat)
    requires i < |tokens| && IsFrom(tokens[i]) ==> i + 1 < |tokens|
    ensures i < |tokens| && IsFrom(tokens[i]) ==> r == Ok(tokens[i + 1]) && next == i + 2
    ensures !(i < |tokens| && IsFrom(tokens[i])) ==> r == Err(InvalidSyntax) && next == i
  {
    next := i;
    if next < |tokens| && IsFrom(tokens[next]) {
      next := next + 1;
      var tableName := tokens[next];
      next := next + 1;
      return Ok(tableName), next;
    }
    return Err(InvalidSyntax), next;
  }

  /** Where the `WHERE` segment starting at `i` ends: at the first `ORDER`,
      or at `i` itself when no `WHERE` stands there. */
  function WhereEnd(tokens: seq<string>, i: nat): (w: nat)
    requires i <= |tokens|
    ensures i <= w <= |tokens|
    ensures forall k :: i <= k < w ==> !IsOrder(tokens[k])
    ensures w > i ==> IsWhere(tokens[i])
    ensures w < |tokens| && w > i ==> IsOrder(tokens[w])
  {
    if i < |tokens| && IsWhere(tokens[i]) then FirstIndexOf(tokens, "ORDER", i) else i
  }

  /** The `ORDER BY` segment at `w`: the `ORDER` alone when no `BY` follows
      it, otherwise everything from `ORDER` to the end. */
  function OrderBySegment(tokens: seq<string>, w: nat): (o: seq<string>)
    requires w <= |tokens|
    ensures o != [] ==> IsOrder(o[0]) && w < |tokens|
    ensures |o| > 1 ==> IsBy(o[1]) && o == tokens[w..]
    ensures o == [] <==> !(w < |tokens| && IsOrder(tokens[w]))
  {
    if w < |tokens| && IsOrder(tokens[w]) then
      [tokens[w]] + (if w + 1 < |tokens| && IsBy(tokens[w + 1]) then tokens[w + 1..] else [])
    else []
  }

  /** The first half of `parse_where_and_orderby`: from a `WHERE`, every
      token up to the first `ORDER`. */
  method CollectWhere(tokens: seq<string>, i: nat) returns (whereTokens: seq<string>, next: nat)
    requires i <= |tokens|
    ensures next == WhereEnd(tokens, i)
    ensures whereTokens == tokens[i..next]
  {
    whereTokens := [];
    next := i;
    if next < |tokens| && IsWhere(tokens[next]) {
      while next < |tokens| && !IsOrder(tokens[next])
        invariant i <= next <= WhereEnd(tokens, i)
        invariant whereTokens == tokens[i..next]
        decreases |tokens| - next
      {
        assert tokens[i..next + 1] == tokens[i..next] + [tokens[next]];
        whereTokens := whereTokens + [tokens[next]];
        next := next + 1;
      }
    } else {
      assert tokens[i..i] == [];
    }
  }

  /** The second half: an `ORDER`, and everything after it when `BY` follows. */
  method CollectOrderBy(tokens: seq<string>, w: nat) returns (orderbyTokens: seq<string>, next: nat)
    requires w <= |tokens|
    ensures orderbyTokens == OrderBySegment(tokens, w)
  {
    orderbyTokens := [];
    next := w;
    if next < |tokens| && IsOrder(tokens[next]) {
      orderbyTokens := orderbyTokens + [tokens[next]];
      next := next + 1;
      if next < |tokens| && IsBy(tokens[next]) {
        while next < |tokens|
          invariant w + 1 <= next <= |tokens|
          invariant orderbyTokens == [tokens[w]] + tokens[w + 1..next]
          decreases |tokens| - next
        {
          assert tokens[w + 1..next + 1] == tokens[w + 1..next] + [tokens[next]];
          orderbyTokens := orderbyTokens + [tokens[next]];
          next := next + 1;
        }
        assert tokens[w + 1..next] == tokens[w + 1..];
      } else {
        assert orderbyTokens == [tokens[w]] + [];
      }
    }
  }

  /** `parse_where_and_orderby`: the `WHERE` segment, then the `ORDER BY`
      segment. The source wraps the pair in a result that is never an error. */
  method ParseWhereAndOrderby(tokens: seq<string>, i: nat)
    returns (whereTokens: seq<string>, orderbyTokens: seq<string>, next: nat)
    requires i <= |tokens|
    ensures whereTokens == tokens[i..WhereEnd(tokens, i)]
    ensures orderbyTokens == OrderBySegment(tokens, WhereEnd(tokens, i))
  {
    whereTokens, next := CollectWhere(tokens, i);
    orderbyTokens, next := CollectOrderBy(tokens, next);
  }

  /** The statement's sub-clauses are rejected: an empty column list, an empty
      table name, a `WHERE` segment its recogniser refuses, or an `ORDER BY`
      segment its recogniser refuses. */
  predicate Refused(tokens: seq<string>, parse: ConditionParser)
    requires |tokens| >= 4 && IsSelect(tokens[0]) && Indexable(tokens)
  {
    var f := FromIndex(tokens);
    var w := WhereEnd(tokens, f + 2);
    var whereTokens := tokens[f + 2..w];
    var orderbyTokens := OrderBySegment(tokens, w);
    || f == 1 || tokens[f + 1] == ""
    || (whereTokens != [] && WhereClause.NewFromTokens(whereTokens, parse).Err?)
    || (orderbyTokens != [] && OrderByClause.Rejects(orderbyTokens))
  }

  /** `Select::new_from_tokens`. */
  method NewFromTokens(tokens: seq<string>, parse: ConditionParser) returns (r: Result<Select>)
    requires Indexable(tokens)
    ensures |tokens| < 4 || !IsSelect(tokens[0]) ==> r == Err(InvalidSyntax)
    ensures |tokens| >= 4 && IsSelect(tokens[0]) ==>
              var f := FromIndex(tokens);
              var w := WhereEnd(tokens, f + 2);
              var whereTokens := tokens[f + 2..w];
              var orderbyTokens := OrderBySegment(tokens, w);
              && (r.Err? <==> Refused(tokens, parse))
              && (f == 1 || tokens[f + 1] == "" ==> r == Err(InvalidSyntax))
              && (f != 1 && tokens[f + 1] != "" && whereTokens != []
                    && WhereClause.NewFromTokens(whereTokens, parse).Err? ==>
                    r == Err(WhereClause.NewFromTokens(whereTokens, parse).error))
              && (r.Err? && !(whereTokens != [] && WhereClause.NewFromTokens(whereTokens, parse).Err?) ==>
                    r.error == InvalidSyntax)
              && (r.Ok? ==>
                    && r.value.columns == tokens[1..f]
                    && r.value.tableName == tokens[f + 1]
                    && r.value.whereClause ==
                         (if whereTokens == [] then None
                          else Some(WhereClause.NewFromTokens(whereTokens, parse).value))
                    && (r.value.orderbyClause.Some? <==> orderbyTokens != [])
                    && (r.value.orderbyClause.Some? ==>
                          OrderByClause.Describes(orderbyTokens, r.value.orderbyClause.value)))
  {
    if |tokens| < 4 {
      return Err(InvalidSyntax);
    }
    var i := 0;
    var columnsResult, afterColumns := ParseColumns(tokens, i);
    if columnsResult.Err? {
      return Err(columnsResult.error);
    }
    var columns := columnsResult.value;
    ghost var f := FromIndex(tokens);
    assert afterColumns == f && columns == tokens[1..f];
    // The cursor stands on the `FROM` that ended the column loop, so the
    // table name is always read.
    var tableResult, afterTable := ParseTableName(tokens, afterColumns);
    var tableName := tableResult.value;
    assert tableName == tokens[f + 1] && afterTable == f + 2;
    if |columns| == 0 || tableName == "" {
      assert Refused(tokens, parse);
      return Err(InvalidSyntax);
    }
    var whereTokens, orderbyTokens, _ := ParseWhereAndOrderby(tokens, afterTable);
    var clauses := RecogniseSubclauses(whereTokens, orderbyTokens, parse);
    if clauses.Err? {
      assert Refused(tokens, parse);
      return Err(clauses.error);
    }
    assert !Refused(tokens, parse);
    return Ok(Select(tableName, columns, clauses.value.0, clauses.value.1));
  }

  /** The tail of the recogniser: the `WHERE` clause from its segment, then
      the `ORDER BY` clause from its segment, each only when present. */
  method RecogniseSubclauses(whereTokens: seq<string>, orderbyTokens: seq<string>, parse: ConditionParser)
    returns (r: Result<(Option<Where>, Option<OrderByClause.OrderBy>)>)
    ensures r.Err? <==>
              || (whereTokens != [] && WhereClause.NewFromTokens(whereTokens, parse).Err?)
              || (orderbyTokens != [] && OrderByClause.Rejects(orderbyTokens))
    ensures whereTokens != [] && WhereClause.NewFromTokens(whereTokens, parse).Err? ==>
              r == Err(WhereClause.NewFromTokens(whereTokens, parse).error)
    ensures r.Err? && !(whereTokens != [] && WhereClause.NewFromTokens(whereTokens, parse).Err?) ==>
              r.error == InvalidSyntax
    ensures r.Ok? ==>
              && r.value.0 == (if whereTokens == [] then None
                               else Some(WhereClause.NewFromTokens(whereTokens, parse).value))
              && (r.value.1.Some? <==> orderbyTokens != [])
              && (r.value.1.Some? ==> OrderByClause.Describes(orderbyTokens, r.value.1.value))
  {
    var whereClause: Option<Where> := None;
    if whereTokens != [] {
      var w := WhereClause.NewFromTokens(whereTokens, parse);
      if w.Err? {
        return Err(w.error);
      }
      whereClause := Some(w.value);
    }
    var orderbyClause: Option<OrderByClause.OrderBy> := None;
    if orderbyTokens != [] {
      var o := OrderByClause.NewFromTokens(orderbyTokens);
      if o.Err? {
        return Err(o.error);
      }
      orderbyClause := Some(o.value);
    }
    return Ok((whereClause, orderbyClause));
  }

  /** An `ORDER` with no `BY` after it makes the whole statement invalid. */
  lemma OrderWithoutBy(tokens: seq<string>, parse: ConditionParser)
    requires |tokens| >= 4 && IsSelect(tokens[0]) && Indexable(tokens)
    requires var w := WhereEnd(tokens, FromIndex(tokens) + 2);
             w < |tokens| && IsOrder(tokens[w]) && !(w + 1 < |tokens| && IsBy(tokens[w + 1]))
    ensures Refused(tokens, parse)
  {
    var w := WhereEnd(tokens, FromIndex(tokens) + 2);
    assert OrderBySegment(tokens, w) == [tokens[w]];
  }

  // ---------------------------------------------------------------------------
  // Evaluating the statement on one line

  /** The check at the head of `execute`: some selected column is not in the
      header, and the selection is not `*`. */
  predicate SelectsUnknownColumn(s: Select, header: seq<string>)
  {
    (exists k :: 0 <= k < |s.columns| && s.columns[k] !in header) && s.columns[0] != "*"
  }

  /** The result of `execute` on one line: the line's register when kept,
      the empty register when the `WHERE` clause is false. */
  function Row(s: Select, header: seq<string>, line: string): (r: Result<Register>)
    requires SelectsUnknownColumn(s, header) || |Split(line, ',')| >= |header|
    ensures SelectsUnknownColumn(s, header) ==> r == Err(InvalidColumn)
    ensures !SelectsUnknownColumn(s, header) ==>
              var reg := Zip(header, Split(line, ','));
              && (r.Err? <==> Admits(s.whereClause, reg).Err?)
              && (r.Err? ==> r.error == Admits(s.whereClause, reg).error)
              && (r.Ok? ==> r.value == if Admits(s.whereClause, reg).value then reg else map[])
  {
    if SelectsUnknownColumn(s, header) then Err(InvalidColumn)
    else
      var reg := Zip(header, Split(line, ','));
      var keep :- Admits(s.whereClause, reg);
      Ok(if keep then reg else map[])
  }

  /** A row of a table with a header is kept, and kept in full, exactly when
      there is no `WHERE` clause or it evaluates to true. */
  lemma RowKeptIff(s: Select, header: seq<string>, line: string)
    requires |header| > 0 && !SelectsUnknownColumn(s, header) && |Split(line, ',')| >= |header|
    ensures var r := Row(s, header, line);
            r.Ok? && r.value != map[] <==> Admits(s.whereClause, Zip(header, Split(line, ','))) == Ok(true)
    ensures var r := Row(s, header, line);
            r.Ok? && r.value != map[] ==> r.value == Zip(header, Split(line, ','))
  {
    assert header[0] in Zip(header, Split(line, ','));
  }

  /** `execute`: the column check, the conversion of the line, the `WHERE`
      test, and the copy of every header column into the result. */
  method Execute(s: Select, line: string, header: seq<string>) returns (r: Result<Register>)
    requires SelectsUnknownColumn(s, header) || |Split(line, ',')| >= |header|
    ensures r == Row(s, header, line)
  {
    if SelectsUnknownColumn(s, header) {
      return Err(InvalidColumn);
    }
    var original := FromLine(line, header);
    ghost var keeps := Admits(s.whereClause, original);
    var result: Register := map[];
    var keep := true;
    if s.whereClause.Some? {
      var opResult := WhereClause.Execute(s.whereClause.value, original);
      if opResult.Err? {
        return Err(opResult.error);
      }
      keep := opResult.value;
    }
    assert keeps == Ok(keep);
    if keep {
      result := CopyColumns(original, header);
      assert result == original;
    }
    return Ok(result);
  }

  // ---------------------------------------------------------------------------
  // Projection

  /** The columns `filter_columns` keeps: the header for `*`, else the selection. */
  function Selected(s: Select, header: seq<string>): (cols: seq<string>)
    requires |s.columns| > 0
    ensures s.columns[0] == "*" ==> cols == header
    ensures s.columns[0] != "*" ==> cols == s.columns
  {
    if s.columns[0] == "*" then header else s.columns
  }

  /** The part of `reg` on the columns `keys`. */
  function Restrict(reg: Register, keys: seq<string>): (r: Register)
    ensures r.Keys == reg.Keys * (set c | c in keys)
    ensures forall c :: c in r ==> r[c] == reg[c]
  {
    map c | c in reg && c in keys :: reg[c]
  }

  /** `filter_columns`: every register cut down to the selected columns. */
  method FilterColumns(s: Select, header: seq<string>, registers: seq<Register>)
    returns (filtered: seq<Register>)
    requires |s.columns| > 0
    ensures |filtered| == |registers|
    ensures forall k :: 0 <= k < |registers| ==>
              filtered[k] == Restrict(registers[k], Selected(s, header))
  {
    var colsSelected: seq<string> := [];
    if s.columns[0] == "*" {
      for k := 0 to |header|
        invariant colsSelected == header[..k]
      {
        colsSelected := colsSelected + [header[k]];
      }
      assert header[..|header|] == header;
    } else {
      for k := 0 to |s.columns|
        invariant colsSelected == s.columns[..k]
      {
        colsSelected := colsSelected + [s.columns[k]];
      }
      assert s.columns[..|s.columns|] == s.columns;
    }
    filtered := [];
    for k := 0 to |registers|
      invariant |filtered| == k
      invariant forall j :: 0 <= j < k ==> filtered[j] == Restrict(registers[j], colsSelected)
    {
      var reg := registers[k];
      filtered := filtered + [map c | c in reg && c in colsSelected :: reg[c]];
    }
  }

  /** With `*`, a register over the header's columns keeps all of them. */
  lemma SelectAllKeepsRegister(s: Select, header: seq<string>, reg: Register)
    requires |s.columns| > 0 && s.columns[0] == "*"
    requires reg.Keys == set c | c in header
    ensures Restrict(reg, Selected(s, header)) == reg
  {
  }

  /** Otherwise a register keeps only the selected columns it has. */
  lemma SelectColumnsKeepsSelected(s: Select, header: seq<string>, reg: Register, c: string)
    requires |s.columns| > 0 && s.columns[0] != "*"
    ensures c in Restrict(reg, Selected(s, header)) <==> c in reg && c in s.columns
  {
  }

  // ---------------------------------------------------------------------------
  // The row loop of `apply_to_table`

  /** The registers the row loop collects from the data lines, in order: the
      non-empty results of `execute`, or its first error. */
  function Kept(s: Select, header: seq<string>, data: seq<string>): Result<seq<Register>>
    requires Fits(header, data)
    decreases |data|
  {
    if data == [] then Ok([])
    else
      var prev :- Kept(s, header, data[..|data| - 1]);
      var reg :- Row(s, header, data[|data| - 1]);
      Ok(if reg == map[] then prev else prev + [reg])
  }

  /** Once a prefix of the lines fails, the whole loop fails with its error. */
  lemma {:induction false} KeptPrefixErr(s: Select, header: seq<string>, data: seq<string>, n: nat)
    requires Fits(header, data) && n <= |data|
    requires Kept(s, header, data[..n]).Err?
    ensures Kept(s, header, data) == Kept(s, header, data[..n])
    decreases |data| - n
  {
    if n < |data| {
      var longer := data[..n + 1];
      assert longer[..|longer| - 1] == data[..n];
      KeptPrefixErr(s, header, data, n + 1);
    } else {
      assert data[..n] == data;
    }
  }

  /** Every collected register is a whole line's register: its keys are the
      header's columns. */
  lemma {:induction false} KeptShape(s: Select, header: seq<string>, data: seq<string>)
    requires Fits(header, data) && Kept(s, header, data).Ok?
    ensures forall k :: 0 <= k < |Kept(s, header, data).value| ==>
              Kept(s, header, data).value[k].Keys == set c | c in header
    decreases |data|
  {
    if data != [] {
      KeptShape(s, header, data[..|data| - 1]);
    }
  }

  /** Without a `WHERE` clause every line is collected, one register each. */
  lemma {:induction false} KeptAllWithoutWhere(s: Select, header: seq<string>, data: seq<string>)
    requires |header| > 0 && Fits(header, data)
    requires s.whereClause.None? && !SelectsUnknownColumn(s, header)
    ensures Kept(s, header, data).Ok?
    ensures |Kept(s, header, data).value| == |data|
    ensures forall k :: 0 <= k < |data| ==>
              Kept(s, header, data).value[k] == Zip(header, Split(data[k], ','))
    decreases |data|
  {
    if data != [] {
      var init := data[..|data| - 1];
      var last := data[|data| - 1];
      KeptAllWithoutWhere(s, header, init);
      RowKeptIff(s, header, last);
      var reg := Zip(header, Split(last, ','));
      assert Row(s, header, last) == Ok(reg) && reg != map[];
      var rows := Kept(s, header, init).value + [reg];
      assert Kept(s, header, data) == Ok(rows);
      forall k | 0 <= k < |data|
        ensures rows[k] == Zip(header, Split(data[k], ','))
      {
        if k < |init| {
          assert data[k] == init[k];
        }
      }
    }
  }

  /** The registers before projection: as collected, or sorted by the
      `ORDER BY` clause. */
  predicate Arranged(s: Select, kept: seq<Register>, sorted: seq<Register>)
  {
    match s.orderbyClause
    case None => sorted == kept
    case Some(o) =>
      multiset(sorted) == multiset(kept) && OrderByClause.SortedBy(sorted, o.columns, o.order)
  }

  /** Registers over one header carry the same order columns. */
  lemma UniformPresence(rs: seq<Register>, header: seq<string>, columns: seq<string>)
    requires forall k :: 0 <= k < |rs| ==> rs[k].Keys == set c | c in header
    ensures forall i, j :: 0 <= i < |rs| && 0 <= j < |rs| ==>
              OrderByClause.SamePresence(rs[i], rs[j], columns)
  {
  }

  /** The row loop of `apply_to_table`: the header from the first line, then
      `execute` on every data line, keeping the non-empty registers and
      stopping at the first error. */
  method ReadRows(s: Select, lines: seq<string>) returns (columns: seq<string>, r: Result<seq<Register>>)
    requires |lines| > 0 ==> Fits(Split(lines[0], ','), lines[1..])
    ensures |lines| == 0 ==> columns == [] && r == Ok([])
    ensures |lines| > 0 ==> columns == Split(lines[0], ',') && r == Kept(s, columns, lines[1..])
  {
    columns := [];
    var registers: seq<Register> := [];
    for idx := 0 to |lines|
      invariant idx == 0 ==> columns == [] && registers == []
      invariant idx > 0 ==> columns == Split(lines[0], ',')
      invariant idx > 0 ==> Kept(s, columns, lines[1..idx]) == Ok(registers)
    {
      var line := lines[idx];
      if idx == 0 {
        columns := Split(line, ',');
        assert lines[1..1] == [];
      } else {
        FitsUpTo(columns, lines, idx);
        var reg := Execute(s, line, columns);
        if reg.Err? {
          KeptPrefixErr(s, columns, lines[1..], idx);
          return columns, Err(reg.error);
        }
        if reg.value != map[] {
          registers := registers + [reg.value];
        }
      }
    }
    if |lines| > 0 {
      assert lines[1..|lines|] == lines[1..];
    }
    return columns, Ok(registers);
  }

  /** `apply_to_table` over the table's lines, header first: the header is
      split on commas, every data line goes through `execute`, the kept
      registers are sorted when there is an `ORDER BY`, then projected. */
  method ApplyToTable(s: Select, lines: seq<string>) returns (r: Result<Table>)
    requires |s.columns| > 0
    requires |lines| > 0 ==> Fits(Split(lines[0], ','), lines[1..])
    ensures |lines| == 0 ==> r == Ok(Table([], []))
    ensures |lines| > 0 ==>
              var header := Split(lines[0], ',');
              var kept := Kept(s, header, lines[1..]);
              && (kept.Err? ==> r == Err(kept.error))
              && (kept.Ok? ==>
                    && r.Ok?
                    && r.value.columns == header
                    && |r.value.registers| == |kept.value|
                    && exists sorted: seq<Register> ::
                         && |sorted| == |kept.value|
                         && Arranged(s, kept.value, sorted)
                         && forall k :: 0 <= k < |sorted| ==>
                              r.value.registers[k] == Restrict(sorted[k], Selected(s, header)))
  {
    var columns, rows := ReadRows(s, lines);
    if rows.Err? {
      return Err(rows.error);
    }
    var registers := rows.value;
    if |lines| > 0 {
      KeptShape(s, columns, lines[1..]);
    }
    var sorted := registers;
    if s.orderbyClause.Some? {
      var o := s.orderbyClause.value;
      var arr := new Register[|registers|](k requires 0 <= k < |registers| => registers[k]);
      assert arr[..] == registers;
      UniformPresence(registers, columns, o.columns);
      OrderByClause.Execute(o, arr);
      sorted := arr[..];
      assert |sorted| == |registers| by {
        assert |multiset(sorted)| == |multiset(registers)|;
      }
    }
    assert Arranged(s, registers, sorted);
    var filtered := FilterColumns(s, columns, sorted);
    return Ok(Table(columns, filtered));
  }
}
