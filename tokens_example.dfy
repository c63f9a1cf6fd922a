/** The query of the tokenizer's documentation example, character by character. */
module ExampleQuery {
  /** The example query of the tokenizer's documentation, without its `;`. */
  const Query: string := "SELECT * FROM table WHERE column = 'value'"

  /** `s` is spelled like the example query, character by character. */
  predicate Spells(s: string)
  {
    && |s| == 42
    && s[0] == 'S' && s[1] == 'E' && s[2] == 'L' && s[3] == 'E' && s[4] == 'C' && s[5] == 'T' && s[6] == ' '
    && s[7] == '*' && s[8] == ' ' && s[9] == 'F' && s[10] == 'R' && s[11] == 'O' && s[12] == 'M' && s[13] == ' '
    && s[14] == 't' && s[15] == 'a' && s[16] == 'b' && s[17] == 'l' && s[18] == 'e' && s[19] == ' ' && s[20] == 'W'
    && s[21] == 'H' && s[22] == 'E' && s[23] == 'R' && s[24] == 'E' && s[25] == ' ' && s[26] == 'c' && s[27] == 'o'
    && s[28] == 'l' && s[29] == 'u' && s[30] == 'm' && s[31] == 'n' && s[32] == ' ' && s[33] == '=' && s[34] == ' '
    && s[35] == '\'' && s[36] == 'v' && s[37] == 'a' && s[38] == 'l' && s[39] == 'u' && s[40] == 'e' && s[41] == '\''
  }

  lemma QueryChars0()
    ensures |Query| == 42 && Query[0] == 'S' && Query[1] == 'E' && Query[2] == 'L' && Query[3] == 'E'
  {
  }

  lemma QueryChars1()
    ensures |Query| == 42 && Query[4] == 'C' && Query[5] == 'T' && Query[6] == ' '
  {
  }

  lemma QueryChars2()
    ensures |Query| == 42 && Query[7] == '*' && Query[8] == ' ' && Query[9] == 'F' && Query[10] == 'R'
  {
  }

  lemma QueryChars3()
    ensures |Query| == 42 && Query[11] == 'O' && Query[12] == 'M' && Query[13] == ' '
  {
  }

  lemma QueryChars4()
    ensures |Query| == 42 && Query[14] == 't' && Query[15] == 'a' && Query[16] == 'b' && Query[17] == 'l' && Query[18] == 'e' && Query[19] == ' ' && Query[20] == 'W'
  {
  }

  lemma QueryChars5()
    ensures |Query| == 42 && Query[21] == 'H' && Query[22] == 'E' && Query[23] == 'R' && Query[24] == 'E' && Query[25] == ' ' && Query[26] == 'c' && Query[27] == 'o'
  {
  }

  lemma QueryChars6()
    ensures |Query| == 42 && Query[28] == 'l' && Query[29] == 'u' && Query[30] == 'm' && Query[31] == 'n' && Query[32] == ' ' && Query[33] == '=' && Query[34] == ' '
  {
  }

  lemma QueryChars7()
    ensures |Query| == 42 && Query[35] == '\'' && Query[36] == 'v' && Query[37] == 'a' && Query[38] == 'l' && Query[39] == 'u' && Query[40] == 'e' && Query[41] == '\''
  {
  }

  /** The example query is spelled as its characters say. */
  lemma QuerySpells()
    ensures Spells(Query)
  {
    QueryChars0();
    QueryChars1();
    QueryChars2();
    QueryChars3();
    QueryChars4();
    QueryChars5();
    QueryChars6();
    QueryChars7();
  }
}

/** The tokenizer on the query of its documentation example. */
module TokensExample {
  import opened Strings
  import opened Tokens
  import opened ExampleQuery

  /** A run of word characters from `i` to `j` is one token. */
  lemma ScanWord(s: string, i: nat, j: nat)
    requires i < j <= |s|
    requires forall k :: i <= k < j ==> IsWordChar(s[k])
    requires j < |s| ==> !IsWordChar(s[j])
    ensures Scan(s, i) == [s[i..j]] + Scan(s, j)
  {
    RunEndAt(s, i, j, IsWordChar);
    assert Step(s, i) == ([s[i..j]], j);
  }

  /** A run of symbol characters from `i` to `j` is one token. */
  lemma ScanSymbol(s: string, i: nat, j: nat)
    requires i < j <= |s|
    requires !IsWordChar(s[i]) && !IsDigit(s[i]) && s[i] != '\'' && s[i] != '(' && s[i] != ','
    requires forall k :: i <= k < j ==> IsOtherChar(s[k])
    requires j < |s| ==> !IsOtherChar(s[j])
    ensures Scan(s, i) == [s[i..j]] + Scan(s, j)
  {
    RunEndAt(s, i, j, IsOtherChar);
    assert Step(s, i) == ([s[i..j]], j);
  }

  /** A quoted span closed at `j` is one token, the text between the quotes. */
  lemma ScanQuoted(s: string, i: nat, j: nat)
    requires i < j < |s| && s[i] == '\'' && s[j] == '\''
    requires forall k :: i < k < j ==> s[k] != '\''
    ensures Scan(s, i) == [s[i + 1..j]] + Scan(s, j + 1)
  {
    RunEndAt(s, i + 1, j, NotQuote);
    assert Step(s, i) == ([s[i + 1..j]], j + 1);
  }

  // The lemmas below scan any text spelled like the example query one token
  // at a time, each token with the separator that follows it; the tokens are
  // slices of the text until `ExampleWords` spells them out.

  lemma ExampleToken0(s: string)
    requires Spells(s)
    ensures Scan(s, 0) == [s[0..6]] + Scan(s, 7)
  {
    ScanWord(s, 0, 6);
    SeparatorsSkipped(s, 6);
  }

  lemma ExampleToken7(s: string)
    requires Spells(s)
    ensures Scan(s, 7) == [s[7..8]] + Scan(s, 9)
  {
    ScanSymbol(s, 7, 8);
    SeparatorsSkipped(s, 8);
  }

  lemma ExampleToken9(s: string)
    requires Spells(s)
    ensures Scan(s, 9) == [s[9..13]] + Scan(s, 14)
  {
    ScanWord(s, 9, 13);
    SeparatorsSkipped(s, 13);
  }

  lemma ExampleToken14(s: string)
    requires Spells(s)
    ensures Scan(s, 14) == [s[14..19]] + Scan(s, 20)
  {
    ScanWord(s, 14, 19);
    SeparatorsSkipped(s, 19);
  }

  lemma ExampleToken20(s: string)
    requires Spells(s)
    ensures Scan(s, 20) == [s[20..25]] + Scan(s, 26)
  {
    ScanWord(s, 20, 25);
    SeparatorsSkipped(s, 25);
  }

  lemma ExampleToken26(s: string)
    requires Spells(s)
    ensures Scan(s, 26) == [s[26..32]] + Scan(s, 33)
  {
    ScanWord(s, 26, 32);
    SeparatorsSkipped(s, 32);
  }

  lemma ExampleToken33(s: string)
    requires Spells(s)
    ensures Scan(s, 33) == [s[33..34]] + Scan(s, 35)
  {
    ScanSymbol(s, 33, 34);
    SeparatorsSkipped(s, 34);
  }

  lemma ExampleToken35(s: string)
    requires Spells(s)
    ensures Scan(s, 35) == [s[36..41]]
  {
    assert Scan(s, 42) == [];
    ScanQuoted(s, 35, 41);
  }

  /** The second half of the scan: `WHERE column = 'value'`. */
  lemma ExampleScanWhere(s: string)
    requires Spells(s)
    ensures Scan(s, 20) == [s[20..25], s[26..32], s[33..34], s[36..41]]
  {
    var t := [s[20..25], s[26..32], s[33..34], s[36..41]];
    ExampleToken35(s);
    assert Scan(s, 35) == t[3..];
    ExampleToken33(s);
    assert Scan(s, 33) == t[2..];
    ExampleToken26(s);
    assert Scan(s, 26) == t[1..];
    ExampleToken20(s);
  }

  /** The scan of a text spelled like the example query, as slices of it. */
  lemma ExampleScanSlices(s: string)
    requires Spells(s)
    ensures Scan(s, 0) == [s[0..6], s[7..8], s[9..13], s[14..19], s[20..25], s[26..32], s[33..34], s[36..41]]
  {
    var t := [s[0..6], s[7..8], s[9..13], s[14..19], s[20..25], s[26..32], s[33..34], s[36..41]];
    ExampleScanWhere(s);
    assert Scan(s, 20) == t[4..];
    ExampleToken14(s);
    assert Scan(s, 14) == t[3..];
    ExampleToken9(s);
    assert Scan(s, 9) == t[2..];
    ExampleToken7(s);
    assert Scan(s, 7) == t[1..];
    ExampleToken0(s);
  }

  /** Those slices spell the example's words. */
  lemma ExampleWords(s: string)
    requires Spells(s)
    ensures [s[0..6], s[7..8], s[9..13], s[14..19], s[20..25], s[26..32], s[33..34], s[36..41]]
            == ["SELECT", "*", "FROM", "table", "WHERE", "column", "=", "value"]
  {
    assert s[0..6] == "SELECT";
    assert s[7..8] == "*";
    assert s[9..13] == "FROM";
    assert s[14..19] == "table";
    assert s[20..25] == "WHERE";
    assert s[26..32] == "column";
    assert s[33..34] == "=";
    assert s[36..41] == "value";
  }

  /** The scan of the example query. */
  lemma ExampleScan()
    ensures Scan(Query, 0) == ["SELECT", "*", "FROM", "table", "WHERE", "column", "=", "value"]
  {
    QuerySpells();
    ExampleScanSlices(Query);
    ExampleWords(Query);
  }

  /** A `;` at the end of a text is dropped before scanning. */
  lemma TrailingSemicolon(s: string)
    requires ';' !in s
    ensures Tokenize(s + ";") == NonEmpty(Scan(s, 0))
  {
    var semicolon := [';'];
    RemoveCharConcat(s, semicolon, ';');
    RemoveCharAbsent(s, ';');
    assert RemoveChar(semicolon, ';') == RemoveChar(semicolon[1..], ';') == [];
    var r := RemoveChar(s + semicolon, ';');
    assert r == s;
  }

  /** The documentation example: the query with its `;` gives the eight
      tokens `SELECT`, `*`, `FROM`, `table`, `WHERE`, `column`, `=`, `value`. */
  lemma TokenizeExample()
    ensures Tokenize(Query + ";") == ["SELECT", "*", "FROM", "table", "WHERE", "column", "=", "value"]
  {
    assert ';' !in Query;
    TrailingSemicolon(Query);
    ExampleScan();
    NonEmptyKeeps(Scan(Query, 0));
  }
}
