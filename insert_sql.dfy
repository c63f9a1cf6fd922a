/** The `INSERT` statement: its recogniser, the reordering of the supplied
    values into the table's column order, and the line appended to the table. */
module InsertClause {
  import opened Errors
  import opened Strings
  import opened Registers
  import opened Utils
  import opened IntoClause

  // ---------------------------------------------------------------------------
  // Reordering the values

  /** The first position of `c` in `cols`, as `position` finds it. */
  function Position(cols: seq<string>, c: string): (k: nat)
    requires c in cols
    ensures k < |cols| && cols[k] == c
    ensures forall j :: 0 <= j < k ==> cols[j] != c
  {
    if cols[0] == c then 0 else 1 + Position(cols[1..], c)
  }

  /** Every header column that was supplied has a value at its position. */
  predicate Supplied(values: seq<string>, cols: seq<string>, header: seq<string>)
  {
    forall k :: 0 <= k < |header| && header[k] in cols ==> Position(cols, header[k]) < |values|
  }

  /** The values in header order: for each header column the value given
      for its first occurrence among `cols`, or `""` when it was not given. */
  function Reordered(values: seq<string>, cols: seq<string>, header: seq<string>): (r: seq<string>)
    requires Supplied(values, cols, header)
    ensures |r| == |header|
  {
    seq(|header|, k requires 0 <= k < |header| =>
      if header[k] in cols then values[Position(cols, header[k])] else "")
  }

  /** Where the statement names each column once, the value of a named
      column lands under that column, wherever the header puts it. */
  lemma ReorderedPlacesValues(values: seq<string>, cols: seq<string>, header: seq<string>, j: nat, k: nat)
    requires Supplied(values, cols, header)
    requires j < |cols| && k < |header| && header[k] == cols[j]
    requires forall a, b :: 0 <= a < b < |cols| ==> cols[a] != cols[b]
    ensures Reordered(values, cols, header)[k] == values[j]
  {
    var p := Position(cols, header[k]);
    assert p == j by {
      if p < j {
        assert cols[p] == cols[j];
      }
    }
  }

  /** A header column the statement does not name gets the empty value. */
  lemma ReorderedFillsBlanks(values: seq<string>, cols: seq<string>, header: seq<string>, k: nat)
    requires Supplied(values, cols, header)
    requires k < |header| && header[k] !in cols
    ensures Reordered(values, cols, header)[k] == ""
  {
  }

  // ---------------------------------------------------------------------------
  // The statement

  /** The values of the token after `VALUES`: quotes removed, split on
      commas, each piece trimmed. */
  function ValueList(text: string): (vals: seq<string>)
    ensures |vals| >= 1
  {
    ColumnList(RemoveChar(text, '\''))
  }

  /** No value holds a quote or a comma. */
  lemma ValueListClean(text: string)
    ensures forall k :: 0 <= k < |ValueList(text)| ==>
              '\'' !in ValueList(text)[k] && ',' !in ValueList(text)[k]
  {
    ColumnListProperties(RemoveChar(text, '\''));
    ColumnListNoQuote(RemoveChar(text, '\''));
  }

  /** Pieces of a quote-free text are quote-free. */
  lemma ColumnListNoQuote(text: string)
    requires '\'' !in text
    ensures forall k :: 0 <= k < |ColumnList(text)| ==> '\'' !in ColumnList(text)[k]
  {
    var parts := Split(text, ',');
    JoinSplit(text, ',');
    forall k | 0 <= k < |parts|
      ensures '\'' !in Trim(parts[k])
    {
      PieceInside(parts, k, ',');
    }
  }

  /** A piece's characters occur in the joined text. */
  lemma {:induction false} PieceInside(parts: seq<string>, k: nat, sep: char)
    requires k < |parts|
    ensures forall c :: c in parts[k] ==> c in Join(parts, sep)
  {
    if k > 0 {
      PieceInside(parts[1..], k - 1, sep);
      assert parts[1..][k - 1] == parts[k];
    }
  }

  /** The statement's `VALUES` keyword, searched from index 1. */
  function ValuesIndex(tokens: seq<string>): (v: nat)
    requires |tokens| >= 1
    ensures 1 <= v <= |tokens|
  {
    FirstIndexOf(tokens, "VALUES", 1)
  }

  /** What the recogniser demands of its input to index safely: after an
      `INSERT`, a `VALUES` follows and a token follows it. */
  predicate Indexable(tokens: seq<string>)
  {
    |tokens| >= 6 && IsInsert(tokens[0]) ==> ValuesIndex(tokens) + 1 < |tokens|
  }

  /** `Insert`: the values to write and the `INTO` clause, both rewritten in
      place by `reorder_values`. */
  class Insert {
    var values: seq<string>
    var intoClause: Into

    constructor (values: seq<string>, intoClause: Into)
      ensures this.values == values && this.intoClause == intoClause
    {
      this.values := values;
      this.intoClause := intoClause;
    }

    /** `reorder_values`: the values and the column list rewritten into the
        table's column order. */
    method ReorderValues(columns: seq<string>)
      modifies this
      requires Supplied(values, intoClause.columns, columns)
      ensures intoClause == old(intoClause).(columns := columns)
      ensures values == Reordered(old(values), old(intoClause.columns), columns)
    {
      var reorderedValues: seq<string> := [];
      var reorderedCols: seq<string> := [];
      for k := 0 to |columns|
        invariant |reorderedValues| == k && |reorderedCols| == k
        invariant forall j :: 0 <= j < k ==> reorderedCols[j] == columns[j]
        invariant forall j :: 0 <= j < k ==>
                    reorderedValues[j] == Reordered(values, intoClause.columns, columns)[j]
      {
        var col := columns[k];
        if col in intoClause.columns {
          var index := Position(intoClause.columns, col);
          reorderedValues := reorderedValues + [values[index]];
          reorderedCols := reorderedCols + [col];
        } else {
          reorderedValues := reorderedValues + [""];
          reorderedCols := reorderedCols + [col];
        }
      }
      intoClause := intoClause.(columns := reorderedCols);
      values := reorderedValues;
    }

    /** `apply_to_table` on the table's first line: the header is the trimmed
        line split on commas, the values are reordered to it, and the line
        returned is the one appended to the table. */
    method ApplyToTable(firstLine: string) returns (line: string)
      modifies this
      requires Supplied(values, intoClause.columns, Split(Trim(firstLine), ','))
      ensures var header := Split(Trim(firstLine), ',');
              && intoClause == old(intoClause).(columns := header)
              && values == Reordered(old(values), old(intoClause.columns), header)
              && line == Join(values, ',')
    {
      var columns := Split(Trim(firstLine), ',');
      ReorderValues(columns);
      line := Join(values, ',');
    }
  }

  /** `Insert::new_from_tokens`: the `INTO` tokens after `INSERT` up to
      `VALUES`, the value list from the token after `VALUES`, and the `INTO`
      clause recognised from those tokens. */
  method NewFromTokens(tokens: seq<string>) returns (r: Result<Insert>)
    requires Indexable(tokens)
    ensures |tokens| < 6 || !IsInsert(tokens[0]) || ValuesIndex(tokens) == 1 ==> r == Err(InvalidSyntax)
    ensures |tokens| >= 6 && IsInsert(tokens[0]) && ValuesIndex(tokens) > 1 ==>
              var v := ValuesIndex(tokens);
              && (r.Err? <==> v < 4 || !IsInto(tokens[1]))
              && (r.Err? ==> r.error == InvalidSyntax)
              && (r.Ok? ==>
                    && r.value.values == ValueList(tokens[v + 1])
                    && r.value.intoClause == Into(tokens[2], ColumnList(tokens[3])))
  {
    if |tokens| < 6 {
      return Err(InvalidSyntax);
    }
    var intoTokens, i := CollectInto(tokens);
    var values, _ := CollectValues(tokens, i);
    if intoTokens == [] || values == [] {
      return Err(InvalidSyntax);
    }
    ghost var v := ValuesIndex(tokens);
    assert |intoTokens| >= 3 ==>
             intoTokens[0] == tokens[1] && intoTokens[1] == tokens[2] && intoTokens[2] == tokens[3];
    var into := IntoClause.NewFromTokens(intoTokens);
    if into.Err? {
      return Err(into.error);
    }
    var insert := new Insert(values, into.value);
    return Ok(insert);
  }

  /** The first loop of the recogniser: after an `INSERT`, the tokens up to
      `VALUES`, with the cursor left on it. */
  method CollectInto(tokens: seq<string>) returns (intoTokens: seq<string>, i: nat)
    requires |tokens| >= 6 && Indexable(tokens)
    ensures IsInsert(tokens[0]) ==> i == ValuesIndex(tokens) && intoTokens == tokens[1..i]
    ensures !IsInsert(tokens[0]) ==> i == 0 && intoTokens == []
    ensures i < |tokens|
  {
    intoTokens := [];
    i := 0;
    if IsInsert(tokens[i]) {
      i := i + 1;
      while !IsValues(tokens[i]) && i < |tokens|
        invariant 1 <= i <= ValuesIndex(tokens)
        invariant intoTokens == tokens[1..i]
        decreases |tokens| - i
      {
        assert tokens[1..i + 1] == tokens[1..i] + [tokens[i]];
        intoTokens := intoTokens + [tokens[i]];
        i := i + 1;
      }
    }
  }

  /** The second step: on a `VALUES`, the value list of the token after it. */
  method CollectValues(tokens: seq<string>, i: nat) returns (values: seq<string>, next: nat)
    requires i < |tokens| && (IsValues(tokens[i]) ==> i + 1 < |tokens|)
    ensures IsValues(tokens[i]) ==> values == ValueList(tokens[i + 1])
    ensures !IsValues(tokens[i]) ==> values == []
  {
    values := [];
    next := i;
    if IsValues(tokens[next]) {
      next := next + 1;
      var vals := ValueList(tokens[next]);
      for k := 0 to |vals|
        invariant |values| == k
        invariant forall j :: 0 <= j < k ==> values[j] == vals[j]
      {
        values := values + [vals[k]];
      }
      assert values == vals;
    }
  }

  // ---------------------------------------------------------------------------
  // Reading the inserted line back

  /** The appended line, read back under the same header, gives each header
      column the value the statement named for it (or `""`): no value holds
      a comma, so the line splits into exactly the reordered values. */
  lemma InsertedLineReadsBack(text: string, cols: seq<string>, header: seq<string>)
    requires |header| >= 1
    requires Supplied(ValueList(text), cols, header)
    ensures var vals := Reordered(ValueList(text), cols, header);
            Split(Join(vals, ','), ',') == vals
  {
    var vals := Reordered(ValueList(text), cols, header);
    ValueListClean(text);
    forall k | 0 <= k < |vals|
      ensures ',' !in vals[k]
    {
    }
    SplitJoin(vals, ',');
  }

  /** And the register read from that line holds, under each header column
      that occurs once, the value the statement named for it. */
  lemma InsertedRegister(text: string, cols: seq<string>, header: seq<string>, j: nat, k: nat)
    requires |header| >= 1
    requires Supplied(ValueList(text), cols, header)
    requires forall a, b :: 0 <= a < b < |cols| ==> cols[a] != cols[b]
    requires forall a, b :: 0 <= a < b < |header| ==> header[a] != header[b]
    requires j < |cols| && k < |header| && header[k] == cols[j]
    ensures var line := Join(Reordered(ValueList(text), cols, header), ',');
            |Split(line, ',')| == |header| &&
            Zip(header, Split(line, ','))[header[k]] == ValueList(text)[j]
  {
    var vals := Reordered(ValueList(text), cols, header);
    InsertedLineReadsBack(text, cols, header);
    ZipLookup(header, vals, k);
    ReorderedPlacesValues(ValueList(text), cols, header, j, k);
  }
}
