/** A register is one table row: a map from column name to value. */
module Registers {
  import opened Errors
  import opened Strings

  type Register = map<string, string>

  /** Every column of `columns` is present in `reg`. */
  predicate HasColumns(reg: Register, columns: seq<string>)
  {
    forall k :: 0 <= k < |columns| ==> columns[k] in reg
  }

  /** The values of `reg` in the order given by `columns`. */
  function CsvValues(reg: Register, columns: seq<string>): (values: seq<string>)
    requires HasColumns(reg, columns)
    ensures |values| == |columns|
    ensures forall k :: 0 <= k < |columns| ==> values[k] == reg[columns[k]]
  {
    seq(|columns|, k requires 0 <= k < |columns| => reg[columns[k]])
  }

  /** `Register::to_csv`: the register's values in `columns` order joined by commas,
      or `Error` as soon as a requested column is missing. */
  method ToCsv(reg: Register, columns: seq<string>) returns (r: Result<string>)
    ensures r.Err? <==> !HasColumns(reg, columns)
    ensures r.Err? ==> r.error == Error
    ensures r.Ok? ==> HasColumns(reg, columns) && r.value == Join(CsvValues(reg, columns), ',')
  {
    var values: seq<string> := [];
    for k := 0 to |columns|
      invariant forall j :: 0 <= j < k ==> columns[j] in reg
      invariant |values| == k
      invariant forall j :: 0 <= j < k ==> values[j] == reg[columns[j]]
    {
      var col := columns[k];
      if col !in reg {
        return Err(Error);
      }
      values := values + [reg[col]];
    }
    assert values == CsvValues(reg, columns);
    return Ok(Join(values, ','));
  }

  /** The register that pairs `columns[k]` with `fields[k]`, inserted in column
      order (a repeated column keeps its last field). */
  function Zip(columns: seq<string>, fields: seq<string>): (r: Register)
    requires |fields| >= |columns|
    ensures r.Keys == set c | c in columns
  {
    if |columns| == 0 then map[]
    else Zip(columns[..|columns| - 1], fields)[columns[|columns| - 1] := fields[|columns| - 1]]
  }

  /** The line reading loop's conversion of one CSV line into a register: the
      line split on commas, paired with the header columns. */
  method FromLine(line: string, columns: seq<string>) returns (reg: Register)
    requires |Split(line, ',')| >= |columns|
    ensures reg == Zip(columns, Split(line, ','))
  {
    var attributes := Split(line, ',');
    reg := map[];
    for idx := 0 to |columns|
      invariant reg == Zip(columns[..idx], attributes)
    {
      assert columns[..idx + 1][..idx] == columns[..idx];
      reg := reg[columns[idx] := attributes[idx]];
    }
    assert columns[..|columns|] == columns;
  }

  /** The copy loop of the `SELECT` and `DELETE` `execute` on a kept line: every
      header column with the line's value for it, or `""` where it has none. */
  method CopyColumns(original: Register, header: seq<string>) returns (result: Register)
    ensures result.Keys == set c | c in header
    ensures forall c :: c in result ==> result[c] == if c in original then original[c] else ""
  {
    result := map[];
    for k := 0 to |header|
      invariant result.Keys == set j | 0 <= j < k :: header[j]
      invariant forall c :: c in result ==> result[c] == if c in original then original[c] else ""
    {
      var col := header[k];
      result := result[col := if col in original then original[col] else ""];
    }
    assert forall c :: c in header ==> exists j :: 0 <= j < |header| && header[j] == c;
  }

  /** The register `{id: 1, name: Alen, age: 25}` under `[id, name, age]`. */
  lemma ToCsvExample()
    ensures var reg := map["id" := "1", "name" := "Alen", "age" := "25"];
            HasColumns(reg, ["id", "name", "age"]) &&
            Join(CsvValues(reg, ["id", "name", "age"]), ',') == "1,Alen,25"
  {
    var reg := map["id" := "1", "name" := "Alen", "age" := "25"];
    var values := CsvValues(reg, ["id", "name", "age"]);
    assert values == ["1", "Alen", "25"];
    assert values[2..] == ["25"] && Join(values[2..], ',') == "25";
    assert Join(values[1..], ',') == "Alen" + [','] + "25";
  }

  /** Every data line has a field for every header column. */
  predicate Fits(header: seq<string>, data: seq<string>)
  {
    forall k :: 0 <= k < |data| ==> |Split(data[k], ',')| >= |header|
  }

  /** The data lines a row loop has reached at index `idx` of the table's
      lines: they fit too, and they are those reached one step earlier
      followed by `lines[idx]`. */
  lemma FitsUpTo(header: seq<string>, lines: seq<string>, idx: nat)
    requires 1 <= idx < |lines| && Fits(header, lines[1..])
    ensures Fits(header, lines[1..idx + 1])
    ensures lines[1..idx + 1][..idx - 1] == lines[1..idx]
    ensures lines[1..idx + 1][idx - 1] == lines[idx]
    ensures lines[1..][..idx] == lines[1..idx + 1]
  {
    var data := lines[1..idx + 1];
    assert forall k :: 0 <= k < idx ==> data[k] == lines[1..][k];
  }

  /** A column that does not occur again later in the header holds its own field. */
  lemma {:induction false} ZipLookup(columns: seq<string>, fields: seq<string>, j: nat)
    requires |fields| >= |columns| && j < |columns|
    requires forall k :: j < k < |columns| ==> columns[k] != columns[j]
    ensures columns[j] in Zip(columns, fields) && Zip(columns, fields)[columns[j]] == fields[j]
  {
    var n := |columns|;
    if j < n - 1 {
      var init := columns[..n - 1];
      ZipLookup(init, fields, j);
      assert init[j] == columns[j];
    }
  }

  /** Serialising a register and reading the line back under the same header
      gives the register again, when the header has no repeated column, covers
      exactly the register's keys, and no value contains a comma. */
  lemma CsvRoundTrip(reg: Register, columns: seq<string>)
    requires reg.Keys == set c | c in columns
    requires forall j, k :: 0 <= j < k < |columns| ==> columns[j] != columns[k]
    requires forall c :: c in reg ==> ',' !in reg[c]
    ensures HasColumns(reg, columns)
    ensures var line := Join(CsvValues(reg, columns), ',');
            |Split(line, ',')| == |columns| || (|columns| == 0 && line == "")
    ensures |columns| > 0 ==> Zip(columns, Split(Join(CsvValues(reg, columns), ','), ',')) == reg
  {
    assert HasColumns(reg, columns) by {
      forall k | 0 <= k < |columns| ensures columns[k] in reg {
        assert columns[k] in set c | c in columns;
      }
    }
    var values := CsvValues(reg, columns);
    if |columns| > 0 {
      SplitJoin(values, ',');
      var z := Zip(columns, values);
      forall c | c in reg ensures c in z && z[c] == reg[c] {
        var j :| 0 <= j < |columns| && columns[j] == c;
        ZipLookup(columns, values, j);
      }
      assert z.Keys == reg.Keys;
    }
  }
}
