/** The `SET` clause of an `UPDATE`: the column/value pairs around each `=`. */
module SetClause {
  import opened Errors
  import opened Utils

  datatype Set = Set(pairs: seq<(string, string)>)

  /** The positions `p` in `[1, i)` that hold an `=` with a token on either
      side, in increasing order. */
  function AssignmentsBelow(tokens: seq<string>, i: nat): (positions: seq<nat>)
    ensures forall k :: 0 <= k < |positions| ==>
              1 <= positions[k] < i && positions[k] + 1 < |tokens| && tokens[positions[k]] == "="
    ensures forall k, l :: 0 <= k < l < |positions| ==> positions[k] < positions[l]
  {
    if i <= 1 then []
    else if i < |tokens| && tokens[i - 1] == "=" then AssignmentsBelow(tokens, i - 1) + [i - 1]
    else AssignmentsBelow(tokens, i - 1)
  }

  /** No assignment position below `i` is missed. */
  lemma {:induction false} AssignmentsBelowComplete(tokens: seq<string>, i: nat)
    ensures forall p :: 1 <= p < i && p + 1 < |tokens| && tokens[p] == "=" ==> p in AssignmentsBelow(tokens, i)
  {
    if i > 1 {
      AssignmentsBelowComplete(tokens, i - 1);
    }
  }

  /** The pairs the scan has pushed once its index reaches `i`. */
  function PairsBelow(tokens: seq<string>, i: nat): (pairs: seq<(string, string)>)
    ensures forall p :: p in pairs ==> p.0 in tokens && p.1 in tokens
  {
    if i <= 1 then []
    else if i < |tokens| && tokens[i - 1] == "=" then
      PairsBelow(tokens, i - 1) + [(tokens[i - 2], tokens[i])]
    else PairsBelow(tokens, i - 1)
  }

  /** One pair per assignment position, in order: the tokens to the left and
      to the right of that `=`. */
  lemma {:induction false} PairsAtAssignments(tokens: seq<string>, i: nat)
    ensures var positions := AssignmentsBelow(tokens, i);
            var pairs := PairsBelow(tokens, i);
            |pairs| == |positions| &&
            forall k :: 0 <= k < |pairs| ==>
              pairs[k] == (tokens[positions[k] - 1], tokens[positions[k] + 1])
  {
    if i > 1 {
      PairsAtAssignments(tokens, i - 1);
      var positions, pairs := AssignmentsBelow(tokens, i - 1), PairsBelow(tokens, i - 1);
      if i < |tokens| && tokens[i - 1] == "=" {
        PairsAtAppend(tokens, positions, pairs, i - 1);
        assert AssignmentsBelow(tokens, i) == positions + [i - 1];
        assert PairsBelow(tokens, i) == pairs + [(tokens[i - 2], tokens[i])];
      } else {
        assert AssignmentsBelow(tokens, i) == positions;
        assert PairsBelow(tokens, i) == pairs;
      }
    }
  }

  /** The correspondence survives a new assignment position at the end. */
  lemma PairsAtAppend(tokens: seq<string>, positions: seq<nat>, pairs: seq<(string, string)>, p: nat)
    requires 1 <= p && p + 1 < |tokens|
    requires |pairs| == |positions|
    requires forall k :: 0 <= k < |pairs| ==>
               1 <= positions[k] < |tokens| - 1 && pairs[k] == (tokens[positions[k] - 1], tokens[positions[k] + 1])
    ensures var positions', pairs' := positions + [p], pairs + [(tokens[p - 1], tokens[p + 1])];
            forall k :: 0 <= k < |pairs'| ==>
              1 <= positions'[k] < |tokens| - 1 && pairs'[k] == (tokens[positions'[k] - 1], tokens[positions'[k] + 1])
  {
  }

  /** `Set::new_from_tokens`. The first token is read unconditionally. */
  method NewFromTokens(tokens: seq<string>) returns (r: Result<Set>)
    requires |tokens| > 0
    ensures r.Err? <==> !IsSet(tokens[0]) || "=" !in tokens
    ensures r.Err? ==> r.error == InvalidSyntax
    ensures r.Ok? ==> r.value.pairs == PairsBelow(tokens, |tokens|)
  {
    var assignments: seq<(string, string)> := [];
    var i := 0;
    if !IsSet(tokens[i]) || "=" !in tokens {
      return Err(InvalidSyntax);
    }
    i := i + 1;
    while i < |tokens|
      invariant 1 <= i <= |tokens|
      invariant assignments == PairsBelow(tokens, i)
      decreases |tokens| - i
    {
      if tokens[i] == "=" && i + 1 < |tokens| {
        assignments := assignments + [(tokens[i - 1], tokens[i + 1])];
      }
      i := i + 1;
    }
    return Ok(Set(assignments));
  }

  /** `SET age = 18`. */
  lemma PairsExample()
    ensures PairsBelow(["SET", "age", "=", "18"], 4) == [("age", "18")]
  {
    var t := ["SET", "age", "=", "18"];
    assert PairsBelow(t, 2) == PairsBelow(t, 1) == [];
    assert PairsBelow(t, 3) == [("age", "18")];
  }
}
