/** The `INTO` clause of an `INSERT`: the table name and the column list. */
module IntoClause {
  import opened Errors
  import opened Strings
  import opened Utils

  datatype Into = Into(tableName: string, columns: seq<string>)

  /** The column list of `tokens[2]`: its comma-separated pieces, trimmed. */
  function ColumnList(text: string): seq<string>
  {
    var parts := Split(text, ',');
    seq(|parts|, k requires 0 <= k < |parts| => Trim(parts[k]))
  }

  /** `Into::new_from_tokens`: tokens after the third are ignored. */
  method NewFromTokens(tokens: seq<string>) returns (r: Result<Into>)
    ensures r.Err? <==> |tokens| < 3 || !IsInto(tokens[0])
    ensures r.Err? ==> r.error == InvalidSyntax
    ensures r.Ok? ==> r.value.tableName == tokens[1] && r.value.columns == ColumnList(tokens[2])
  {
    if |tokens| < 3 {
      return Err(InvalidSyntax);
    }
    var i := 0;
    if IsInto(tokens[i]) {
      i := i + 1;
      var tableName := tokens[i];
      i := i + 1;
      var columns := CollectColumns(tokens[i]);
      return Ok(Into(tableName, columns));
    } else {
      return Err(InvalidSyntax);
    }
  }

  /** The loop that pushes each trimmed piece of the column text. */
  method CollectColumns(text: string) returns (columns: seq<string>)
    ensures columns == ColumnList(text)
  {
    var cols := ColumnList(text);
    columns := [];
    for k := 0 to |cols|
      invariant columns == cols[..k]
    {
      assert cols[..k + 1] == cols[..k] + [cols[k]];
      columns := columns + [cols[k]];
    }
    assert cols[..|cols|] == cols;
  }

  /** One column per comma plus one, none holding a comma, none starting or
      ending in whitespace. */
  lemma ColumnListProperties(text: string)
    ensures |ColumnList(text)| == Count(text, ',') + 1
    ensures forall k :: 0 <= k < |ColumnList(text)| ==> ',' !in ColumnList(text)[k]
    ensures forall k :: 0 <= k < |ColumnList(text)| && |ColumnList(text)[k]| > 0 ==>
              !IsWhitespace(ColumnList(text)[k][0]) &&
              !IsWhitespace(ColumnList(text)[k][|ColumnList(text)[k]| - 1])
  {
    var parts := Split(text, ',');
    SplitCount(text, ',');
    SplitPiecesFree(text, ',');
    forall k | 0 <= k < |parts|
      ensures ',' !in Trim(parts[k])
      ensures |Trim(parts[k])| > 0 ==>
                !IsWhitespace(Trim(parts[k])[0]) && !IsWhitespace(Trim(parts[k])[|Trim(parts[k])| - 1])
    {
      TrimProperties(parts[k]);
    }
  }

  /** Splitting `name, age` at its comma. */
  lemma SplitExample()
    ensures Split("name, age", ',') == ["name", " age"]
  {
    var name, rest, empty: string := "name", " age", [];
    assert Split(empty, ',') == [empty];
    assert ',' !in rest;
    SplitPrefix(rest, empty, ',');
    assert rest + empty == rest;
    var tail := [','] + rest;
    assert Split(tail, ',') == [empty] + Split(rest, ',');
    assert ',' !in name;
    SplitPrefix(name, tail, ',');
    assert "name, age" == name + tail;
    assert Split(tail, ',') == [empty, rest];
    assert name + empty == name;
  }

  /** Trimming the two pieces of `name, age`. */
  lemma TrimExample()
    ensures Trim("name") == "name" && Trim(" age") == "age"
  {
    var name, age: string := "name", "age";
    TrimProperties(name);
    var spaced := " " + age;
    assert spaced[1..] == age;
    assert TrimStart(spaced) == TrimStart(age);
    TrimProperties(age);
    assert TrimStart(age) == age && TrimEnd(age) == age;
  }

  /** `name, age` names two columns. */
  lemma ColumnListExample()
    ensures ColumnList("name, age") == ["name", "age"]
  {
    var parts := Split("name, age", ',');
    SplitExample();
    TrimExample();
    assert ColumnList("name, age") == [Trim(parts[0]), Trim(parts[1])];
  }
}
