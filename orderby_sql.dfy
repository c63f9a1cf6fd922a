/** The `ORDER BY` clause: the sort columns, the direction, and the in-place
    sort of a select's registers. */
module OrderByClause {
  import opened Errors
  import opened Strings
  import opened Registers
  import opened Utils

  datatype OrderBy = OrderBy(columns: seq<string>, order: string)

  /** The index of the first `DESC` or `ASC` from `from` on, or `|tokens|`. */
  function DirectionIndex(tokens: seq<string>, from: nat): (k: nat)
    requires from <= |tokens|
    ensures from <= k <= |tokens|
    ensures forall j :: from <= j < k ==> tokens[j] != "DESC" && tokens[j] != "ASC"
    ensures k < |tokens| ==> tokens[k] == "DESC" || tokens[k] == "ASC"
    decreases |tokens| - from
  {
    if from == |tokens| || tokens[from] == "DESC" || tokens[from] == "ASC" then from
    else DirectionIndex(tokens, from + 1)
  }

  /** The recogniser's rejection test. The keywords are rejected only when
      both `tokens[0]` is not `ORDER` and `tokens[1]` is not `BY`. */
  predicate Rejects(tokens: seq<string>)
  {
    |tokens| < 3 || (!IsOrder(tokens[0]) && !IsBy(tokens[1]))
  }

  /** `o` is what the recogniser reads from `tokens`: the columns from index 2
      up to the first `DESC` or `ASC`, and that keyword (or `""`) as the order. */
  predicate Describes(tokens: seq<string>, o: OrderBy)
    requires |tokens| >= 2
  {
    var k := DirectionIndex(tokens, 2);
    && |o.columns| == k - 2
    && (forall j :: 0 <= j < k - 2 ==> o.columns[j] == tokens[j + 2])
    && o.order == (if k < |tokens| then tokens[k] else "")
  }

  /** `OrderBy::new_from_tokens`. */
  method NewFromTokens(tokens: seq<string>) returns (r: Result<OrderBy>)
    ensures r.Err? <==> Rejects(tokens)
    ensures r.Err? ==> r.error == InvalidSyntax
    ensures r.Ok? ==> Describes(tokens, r.value)
  {
    if |tokens| < 3 {
      return Err(InvalidSyntax);
    }
    var columns: seq<string> := [];
    var order := "";
    var i := 0;
    if !IsOrder(tokens[i]) && !IsBy(tokens[i + 1]) {
      return Err(InvalidSyntax);
    }
    i := i + 2;
    while i < |tokens| && tokens[i] != "DESC" && tokens[i] != "ASC"
      invariant 2 <= i <= DirectionIndex(tokens, 2)
      invariant |columns| == i - 2
      invariant forall j :: 0 <= j < i - 2 ==> columns[j] == tokens[j + 2]
      decreases |tokens| - i
    {
      columns := columns + [tokens[i]];
      i := i + 1;
    }
    if i < |tokens| {
      order := tokens[i];
    }
    return Ok(OrderBy(columns, order));
  }

  // ---------------------------------------------------------------------------
  // The comparator

  datatype Ordering = Less | Equal | Greater

  function Flip(o: Ordering): Ordering
  {
    match o
    case Less => Greater
    case Equal => Equal
    case Greater => Less
  }

  /** `String::cmp`: lexicographic order of the characters. */
  function CmpStrings(x: string, y: string): (o: Ordering)
    ensures o == Equal <==> x == y
  {
    LexLessIrreflexive(x);
    if LexLess(x, y) then Less
    else if x == y then Equal
    else Greater
  }

  /** One column's comparison: reversed when the order is `DESC`. */
  function KeyCmp(x: string, y: string, order: string): (o: Ordering)
    ensures o == Equal <==> x == y
  {
    if order == "DESC" then CmpStrings(y, x) else CmpStrings(x, y)
  }

  /** The closure given to `sort_by`: the first order column present in both
      registers whose values differ decides; otherwise the registers are equal. */
  function CompareRows(a: Register, b: Register, columns: seq<string>, order: string): (o: Ordering)
    ensures o == Equal <==> forall k :: 0 <= k < |columns| && columns[k] in a && columns[k] in b ==> a[columns[k]] == b[columns[k]]
  {
    if columns == [] then Equal
    else
      var c := columns[0];
      if c in a && c in b && KeyCmp(a[c], b[c], order) != Equal then KeyCmp(a[c], b[c], order)
      else CompareRows(a, b, columns[1..], order)
  }

  /** The comparator as the closure computes it, column by column. */
  method Compare(o: OrderBy, a: Register, b: Register) returns (result: Ordering)
    ensures result == CompareRows(a, b, o.columns, o.order)
  {
    result := Equal;
    var k := 0;
    while k < |o.columns|
      invariant 0 <= k <= |o.columns|
      invariant result == Equal
      invariant CompareRows(a, b, o.columns, o.order) == CompareRows(a, b, o.columns[k..], o.order)
      decreases |o.columns| - k
    {
      var column := o.columns[k];
      assert o.columns[k..][0] == column && o.columns[k..][1..] == o.columns[k + 1..];
      if column in a {
        if column in b {
          result := if o.order == "DESC" then CmpStrings(b[column], a[column])
                    else CmpStrings(a[column], b[column]);
          if result != Equal {
            break;
          }
        }
      }
      k := k + 1;
    }
  }

  /** The registers carry the same order columns. */
  predicate SamePresence(a: Register, b: Register, columns: seq<string>)
  {
    forall c :: c in columns ==> (c in a <==> c in b)
  }

  /** `a` may precede `b`. */
  predicate Leq(a: Register, b: Register, columns: seq<string>, order: string)
  {
    CompareRows(a, b, columns, order) != Greater
  }

  predicate SortedBy(s: seq<Register>, columns: seq<string>, order: string)
  {
    forall i, j :: 0 <= i < j < |s| ==> Leq(s[i], s[j], columns, order)
  }

  lemma CmpStringsFlip(x: string, y: string)
    ensures CmpStrings(y, x) == Flip(CmpStrings(x, y))
  {
    LexLessAsymmetric(x, y);
    if x != y {
      LexLessTotal(x, y);
    }
  }

  lemma CmpStringsTransitive(x: string, y: string, z: string)
    requires CmpStrings(x, y) != Greater && CmpStrings(y, z) != Greater
    ensures CmpStrings(x, z) != Greater
    ensures CmpStrings(x, y) == Less || CmpStrings(y, z) == Less ==> CmpStrings(x, z) == Less
  {
    if LexLess(x, y) && LexLess(y, z) {
      LexLessTransitive(x, y, z);
    }
  }

  lemma KeyCmpFlip(x: string, y: string, order: string)
    ensures KeyCmp(y, x, order) == Flip(KeyCmp(x, y, order))
  {
    CmpStringsFlip(x, y);
  }

  lemma KeyCmpTransitive(x: string, y: string, z: string, order: string)
    requires KeyCmp(x, y, order) != Greater && KeyCmp(y, z, order) != Greater
    ensures KeyCmp(x, z, order) != Greater
    ensures KeyCmp(x, y, order) == Less || KeyCmp(y, z, order) == Less ==> KeyCmp(x, z, order) == Less
  {
    if order == "DESC" {
      CmpStringsTransitive(z, y, x);
    } else {
      CmpStringsTransitive(x, y, z);
    }
  }

  /** Swapping the registers flips the comparison. */
  lemma {:induction false} CompareRowsFlip(a: Register, b: Register, columns: seq<string>, order: string)
    ensures CompareRows(b, a, columns, order) == Flip(CompareRows(a, b, columns, order))
  {
    if columns != [] {
      var c := columns[0];
      if c in a && c in b {
        KeyCmpFlip(a[c], b[c], order);
      }
      CompareRowsFlip(a, b, columns[1..], order);
    }
  }

  /** `DESC` compares as ascending order with the registers swapped; any other
      order string is ascending. */
  lemma {:induction false} DescendingIsSwapped(a: Register, b: Register, columns: seq<string>)
    ensures CompareRows(a, b, columns, "DESC") == CompareRows(b, a, columns, "ASC")
    ensures CompareRows(a, b, columns, "ASC") == CompareRows(a, b, columns, "")
  {
    if columns != [] {
      DescendingIsSwapped(a, b, columns[1..]);
    }
  }

  /** Among registers carrying the same order columns, `Leq` is transitive. */
  lemma {:induction false} LeqTransitive(a: Register, b: Register, c: Register, columns: seq<string>, order: string)
    requires SamePresence(a, b, columns) && SamePresence(b, c, columns)
    requires Leq(a, b, columns, order) && Leq(b, c, columns, order)
    ensures Leq(a, c, columns, order)
    ensures CompareRows(a, b, columns, order) == Less || CompareRows(b, c, columns, order) == Less ==>
              CompareRows(a, c, columns, order) == Less
  {
    if columns != [] {
      var col := columns[0];
      assert SamePresence(a, b, columns[1..]) && SamePresence(b, c, columns[1..]);
      if col in a && col in b && col in c {
        var r1 := KeyCmp(a[col], b[col], order);
        var r2 := KeyCmp(b[col], c[col], order);
        if r1 == Equal && r2 == Equal {
          LeqTransitive(a, b, c, columns[1..], order);
        } else if r1 != Equal && r2 != Equal {
          KeyCmpTransitive(a[col], b[col], c[col], order);
        }
      } else {
        LeqTransitive(a, b, c, columns[1..], order);
      }
    }
  }

  /** Every register compares equal to itself. */
  lemma {:induction false} CompareRowsReflexive(a: Register, columns: seq<string>, order: string)
    ensures CompareRows(a, a, columns, order) == Equal
  {
    if columns != [] {
      CompareRowsReflexive(a, columns[1..], order);
    }
  }

  // ---------------------------------------------------------------------------
  // The sort

  /** Every register carries the order columns `first` carries. */
  predicate PresenceLike(s: seq<Register>, first: Register, columns: seq<string>)
  {
    forall k :: 0 <= k < |s| ==> SamePresence(s[k], first, columns)
  }

  /** The first `i` registers are in order. */
  predicate SortedPrefix(s: seq<Register>, i: nat, columns: seq<string>, order: string)
    requires i <= |s|
  {
    forall x, y :: 0 <= x < y < i ==> Leq(s[x], s[y], columns, order)
  }

  /** While the register now at `j` sinks towards its place among the first
      `i + 1`: every other pair is in order, the sinking register precedes
      those behind it, and once `placed` it also follows its predecessor. */
  ghost predicate Sinking(s: seq<Register>, i: nat, j: nat, placed: bool, first: Register,
                          columns: seq<string>, order: string)
  {
    j <= i < |s| && PresenceLike(s, first, columns) &&
    (forall x, y :: 0 <= x < y <= i && x != j && y != j ==> Leq(s[x], s[y], columns, order)) &&
    (forall y :: j < y <= i ==> Leq(s[j], s[y], columns, order)) &&
    (placed ==> 0 < j && Leq(s[j - 1], s[j], columns, order))
  }

  lemma SinkingStart(s: seq<Register>, i: nat, first: Register, columns: seq<string>, order: string)
    requires 0 < i < |s| && PresenceLike(s, first, columns) && SortedPrefix(s, i, columns, order)
    ensures Sinking(s, i, i, false, first, columns, order)
  {
  }

  /** Exchanging the sinking register with a greater predecessor keeps the
      registers and the invariant, one place further down. */
  lemma SinkingSwap(s: seq<Register>, i: nat, j: nat, first: Register, columns: seq<string>, order: string)
    requires Sinking(s, i, j, false, first, columns, order)
    requires 0 < j && CompareRows(s[j - 1], s[j], columns, order) == Greater
    ensures multiset(s[j - 1 := s[j]][j := s[j - 1]]) == multiset(s)
    ensures Sinking(s[j - 1 := s[j]][j := s[j - 1]], i, j - 1, false, first, columns, order)
  {
    var t := s[j - 1 := s[j]][j := s[j - 1]];
    assert |t| == |s|;
    assert forall k :: 0 <= k < |t| && k != j - 1 && k != j ==> t[k] == s[k];
    assert t[j - 1] == s[j] && t[j] == s[j - 1];
    CompareRowsFlip(s[j - 1], s[j], columns, order);
    forall k | 0 <= k < |t|
      ensures SamePresence(t[k], first, columns)
    {
      assert SamePresence(s[k], first, columns);
    }
    forall x, y | 0 <= x < y <= i && x != j - 1 && y != j - 1
      ensures Leq(t[x], t[y], columns, order)
    {
      var x' := if x == j then j - 1 else x;
      var y' := if y == j then j - 1 else y;
      assert t[x] == s[x'] && t[y] == s[y'];
      assert Leq(s[x'], s[y'], columns, order);
    }
    forall y | j - 1 < y <= i
      ensures Leq(t[j - 1], t[y], columns, order)
    {
      if y > j {
        assert Leq(s[j], s[y], columns, order);
      }
    }
    assert Sinking(t, i, j - 1, false, first, columns, order);
    MultisetSwap(s, j);
  }

  lemma MultisetSwap(s: seq<Register>, j: nat)
    requires 0 < j < |s|
    ensures multiset(s[j - 1 := s[j]][j := s[j - 1]]) == multiset(s)
  {
  }

  /** At the bottom, or once placed, the first `i + 1` registers are in order. */
  lemma SinkingDone(s: seq<Register>, i: nat, j: nat, placed: bool, first: Register,
                    columns: seq<string>, order: string)
    requires Sinking(s, i, j, placed, first, columns, order) && (j == 0 || placed)
    ensures SortedPrefix(s, i + 1, columns, order)
  {
    forall x, y | 0 <= x < y <= i
      ensures Leq(s[x], s[y], columns, order)
    {
      if y == j && x < j - 1 {
        LeqTransitive(s[x], s[j - 1], s[j], columns, order);
      }
    }
  }

  /** One step of the sort: the register at `i` sinks past every register
      that compares greater, which extends the sorted prefix by one. */
  method InsertStep(o: OrderBy, registers: array<Register>, i: nat, ghost first: Register)
    modifies registers
    requires 0 < i < registers.Length
    requires PresenceLike(registers[..], first, o.columns)
    requires SortedPrefix(registers[..], i, o.columns, o.order)
    ensures multiset(registers[..]) == multiset(old(registers[..]))
    ensures PresenceLike(registers[..], first, o.columns)
    ensures SortedPrefix(registers[..], i + 1, o.columns, o.order)
  {
    var j := i;
    var placed := false;
    SinkingStart(registers[..], i, first, o.columns, o.order);
    while j > 0 && !placed
      invariant multiset(registers[..]) == multiset(old(registers[..]))
      invariant Sinking(registers[..], i, j, placed, first, o.columns, o.order)
      decreases j, !placed
    {
      ghost var before := registers[..];
      var c := Compare(o, registers[j - 1], registers[j]);
      if c == Greater {
        SinkingSwap(before, i, j, first, o.columns, o.order);
        registers[j - 1], registers[j] := registers[j], registers[j - 1];
        assert registers[..] == before[j - 1 := before[j]][j := before[j - 1]];
        j := j - 1;
      } else {
        placed := true;
      }
    }
    SinkingDone(registers[..], i, j, placed, first, o.columns, o.order);
  }

  /** `OrderBy::execute`: the registers are sorted in place by the comparator.
      The library's merge sort is modelled by an insertion sort, which has the
      same result up to the order of registers that compare equal. */
  method Execute(o: OrderBy, registers: array<Register>)
    modifies registers
    requires forall i, j :: 0 <= i < registers.Length && 0 <= j < registers.Length ==>
               SamePresence(registers[i], registers[j], o.columns)
    ensures multiset(registers[..]) == multiset(old(registers[..]))
    ensures SortedBy(registers[..], o.columns, o.order)
  {
    if registers.Length == 0 {
      return;
    }
    ghost var first := registers[0];
    var i := 1;
    while i < registers.Length
      invariant 1 <= i <= registers.Length
      invariant multiset(registers[..]) == multiset(old(registers[..]))
      invariant PresenceLike(registers[..], first, o.columns)
      invariant SortedPrefix(registers[..], i, o.columns, o.order)
    {
      InsertStep(o, registers, i, first);
      i := i + 1;
    }
  }

  // ---------------------------------------------------------------------------
  // The order of the select test that sorts by `edad DESC`

  lemma DescendingExample()
    ensures CompareRows(map["edad" := "40"], map["edad" := "30"], ["edad"], "DESC") == Less
  {
    assert LexLess("30", "40");
  }
}
