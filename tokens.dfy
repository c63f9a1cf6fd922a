/** The query tokenizer: a character-class scanner over the query text with
    every `;` removed. Character classes are those of `Strings`, on ASCII. */
module Tokens {
  import opened Strings

  /** Characters that continue a word: letters and `_`. */
  predicate IsWordChar(c: char) { IsAlphabetic(c) || c == '_' }

  /** Characters inside a quoted span. */
  predicate NotQuote(c: char) { c != '\'' }

  /** Characters inside a parenthesised span. */
  predicate NotCloseParen(c: char) { c != ')' }

  /** Characters of a symbol run such as `=`, `>=` or `*`. */
  predicate IsOtherChar(c: char) { !IsAlphanumeric(c) && !IsWhitespace(c) }

  /** The end of the longest run of `inRun` characters starting at `i`. */
  function RunEnd(s: string, i: nat, inRun: char -> bool): (j: nat)
    requires i <= |s|
    ensures i <= j <= |s|
    ensures forall k :: i <= k < j ==> inRun(s[k])
    ensures j < |s| ==> !inRun(s[j])
    decreases |s| - i
  {
    if i < |s| && inRun(s[i]) then RunEnd(s, i + 1, inRun) else i
  }

  /** One turn of the dispatch loop at index `i`: the tokens it pushes (none
      for a separator) and the index where the next turn starts. A quoted or
      parenthesised span ends one past its closing character, which may lie
      past the end of `s`. */
  function Step(s: string, i: nat): (r: (seq<string>, nat))
    requires i < |s|
    ensures i < r.1 <= |s| + 1
    ensures |r.0| <= 1
    ensures forall t, c :: t in r.0 && c in t ==> c in s
  {
    var c := s[i];
    if IsWordChar(c) then
      var j := RunEnd(s, i, IsWordChar);
      ([s[i..j]], j)
    else if IsDigit(c) then
      var j := RunEnd(s, i, IsDigit);
      ([s[i..j]], j)
    else if c == '\'' then
      var j := RunEnd(s, i + 1, NotQuote);
      ([s[i + 1..j]], j + 1)
    else if c == '(' then
      var j := RunEnd(s, i + 1, NotCloseParen);
      ([s[i + 1..j]], j + 1)
    else if IsWhitespace(c) || c == ',' then
      ([], i + 1)
    else
      var j := RunEnd(s, i, IsOtherChar);
      ([s[i..j]], j)
  }

  /** The tokens the dispatch loop pushes when it starts at index `i` of `s`,
      before empty tokens are discarded. */
  function Scan(s: string, i: nat): (tokens: seq<string>)
    ensures |tokens| <= if i <= |s| then |s| - i else 0
    decreases |s| - i
  {
    if i >= |s| then []
    else
      var (emitted, next) := Step(s, i);
      emitted + Scan(s, next)
  }

  /** The tokens that are not empty, in order. */
  function NonEmpty(tokens: seq<string>): (r: seq<string>)
    ensures forall t :: t in r <==> t in tokens && t != ""
    ensures |r| <= |tokens|
  {
    if tokens == [] then []
    else if tokens[0] == "" then NonEmpty(tokens[1..])
    else [tokens[0]] + NonEmpty(tokens[1..])
  }

  /** Discarding empty tokens keeps a sequence that has none. */
  lemma {:induction false} NonEmptyKeeps(tokens: seq<string>)
    requires forall t :: t in tokens ==> t != ""
    ensures NonEmpty(tokens) == tokens
  {
    if tokens != [] {
      assert tokens[0] in tokens;
      assert forall t :: t in tokens[1..] ==> t in tokens;
      NonEmptyKeeps(tokens[1..]);
      assert tokens == [tokens[0]] + tokens[1..];
    }
  }

  /** `tokens_from_query` as a function of the query. */
  function Tokenize(query: string): (tokens: seq<string>)
    ensures |tokens| <= |query|
    ensures forall t :: t in tokens ==> t != ""
  {
    NonEmpty(Scan(RemoveChar(query, ';'), 0))
  }

  // ---------------------------------------------------------------------------
  // The scanner as the program runs it

  /** `process_alphabetic`: pushes the longest run of letters and `_` at `index`. */
  method ProcessAlphabetic(s: string, index: nat, tokens: seq<string>) returns (index': nat, tokens': seq<string>)
    requires index < |s| && IsWordChar(s[index])
    ensures index < index' <= |s| && index' == RunEnd(s, index, IsWordChar)
    ensures tokens' == tokens + [s[index..index']]
    ensures forall k :: index <= k < index' ==> IsWordChar(s[k])
    ensures index' < |s| ==> !IsWordChar(s[index'])
  {
    var current := "";
    index' := index;
    while index' < |s|
      invariant index <= index' <= |s|
      invariant current == s[index..index']
      invariant forall k :: index <= k < index' ==> IsWordChar(s[k])
      decreases |s| - index'
    {
      var c := s[index'];
      if IsWordChar(c) {
        current := current + [c];
        index' := index' + 1;
      } else {
        break;
      }
    }
    tokens' := tokens + [current];
  }

  /** `process_numeric`: pushes the longest run of digits at `index`. */
  method ProcessNumeric(s: string, index: nat, tokens: seq<string>) returns (index': nat, tokens': seq<string>)
    requires index < |s| && IsDigit(s[index])
    ensures index < index' <= |s| && index' == RunEnd(s, index, IsDigit)
    ensures tokens' == tokens + [s[index..index']]
    ensures forall k :: index <= k < index' ==> IsDigit(s[k])
    ensures index' < |s| ==> !IsDigit(s[index'])
  {
    var current := "";
    index' := index;
    while index' < |s|
      invariant index <= index' <= |s|
      invariant current == s[index..index']
      invariant forall k :: index <= k < index' ==> IsDigit(s[k])
      decreases |s| - index'
    {
      var c := s[index'];
      if IsDigit(c) {
        current := current + [c];
        index' := index' + 1;
      } else {
        break;
      }
    }
    tokens' := tokens + [current];
  }

  /** `process_quotes`: pushes the text after the quote at `index` up to the
      next quote, or to the end of `s` when there is none, and resumes one
      past that closing quote. */
  method ProcessQuotes(s: string, index: nat, tokens: seq<string>) returns (index': nat, tokens': seq<string>)
    requires index < |s|
    ensures index + 1 < index' <= |s| + 1 && index' == RunEnd(s, index + 1, NotQuote) + 1
    ensures tokens' == tokens + [s[index + 1..index' - 1]]
    ensures '\'' !in s[index + 1..index' - 1]
    ensures index' - 1 < |s| ==> s[index' - 1] == '\''
  {
    var current := "";
    index' := index + 1;
    while index' < |s|
      invariant index + 1 <= index' <= |s|
      invariant current == s[index + 1..index']
      invariant forall k :: index + 1 <= k < index' ==> NotQuote(s[k])
      decreases |s| - index'
    {
      var c := s[index'];
      if c == '\'' {
        break;
      }
      current := current + [c];
      index' := index' + 1;
    }
    index' := index' + 1;
    tokens' := tokens + [current];
  }

  /** `process_paren`: pushes the text after the `(` at `index` up to the next
      `)`, or to the end of `s` when there is none, and resumes one past it. */
  method ProcessParen(s: string, index: nat, tokens: seq<string>) returns (index': nat, tokens': seq<string>)
    requires index < |s|
    ensures index + 1 < index' <= |s| + 1 && index' == RunEnd(s, index + 1, NotCloseParen) + 1
    ensures tokens' == tokens + [s[index + 1..index' - 1]]
    ensures ')' !in s[index + 1..index' - 1]
    ensures index' - 1 < |s| ==> s[index' - 1] == ')'
  {
    var current := "";
    index' := index + 1;
    while index' < |s|
      invariant index + 1 <= index' <= |s|
      invariant current == s[index + 1..index']
      invariant forall k :: index + 1 <= k < index' ==> NotCloseParen(s[k])
      decreases |s| - index'
    {
      var c := s[index'];
      if c == ')' {
        break;
      }
      current := current + [c];
      index' := index' + 1;
    }
    index' := index' + 1;
    tokens' := tokens + [current];
  }

  /** `process_other`: pushes the longest run at `index` of characters that are
      neither alphanumeric nor whitespace. */
  method ProcessOther(s: string, index: nat, tokens: seq<string>) returns (index': nat, tokens': seq<string>)
    requires index < |s| && IsOtherChar(s[index])
    ensures index < index' <= |s| && index' == RunEnd(s, index, IsOtherChar)
    ensures tokens' == tokens + [s[index..index']]
    ensures forall k :: index <= k < index' ==> !IsAlphanumeric(s[k]) && !IsWhitespace(s[k])
    ensures index' < |s| ==> !IsOtherChar(s[index'])
  {
    var current := "";
    index' := index;
    while index' < |s|
      invariant index <= index' <= |s|
      invariant current == s[index..index']
      invariant forall k :: index <= k < index' ==> IsOtherChar(s[k])
      decreases |s| - index'
    {
      var c := s[index'];
      if IsAlphanumeric(c) || IsWhitespace(c) {
        break;
      }
      current := current + [c];
      index' := index' + 1;
    }
    tokens' := tokens + [current];
  }

  lemma AppendAssociative(a: seq<string>, b: seq<string>, c: seq<string>)
    ensures a + (b + c) == (a + b) + c
  {
  }

  /** The body of the dispatch loop: the `process_*` call the character at
      `index` selects, or a skip past a separator. */
  method Dispatch(s: string, index: nat, tokens: seq<string>) returns (index': nat, tokens': seq<string>)
    requires index < |s|
    ensures index' == Step(s, index).1
    ensures tokens' == tokens + Step(s, index).0
  {
    var c := s[index];
    if IsWordChar(c) {
      index', tokens' := ProcessAlphabetic(s, index, tokens);
    } else if IsDigit(c) {
      index', tokens' := ProcessNumeric(s, index, tokens);
    } else if c == '\'' {
      index', tokens' := ProcessQuotes(s, index, tokens);
    } else if c == '(' {
      index', tokens' := ProcessParen(s, index, tokens);
    } else if IsWhitespace(c) || c == ',' {
      index', tokens' := index + 1, tokens;
    } else {
      index', tokens' := ProcessOther(s, index, tokens);
    }
  }

  /** `tokens_from_query`: the dispatch loop, then the removal of empty tokens. */
  method TokensFromQuery(query: string) returns (tokens: seq<string>)
    ensures tokens == Tokenize(query)
  {
    var s := RemoveChar(query, ';');
    var index: nat := 0;
    tokens := [];
    while index < |s|
      invariant tokens + Scan(s, index) == Scan(s, 0)
      decreases |s| - index
    {
      ghost var i0, before := index, tokens;
      index, tokens := Dispatch(s, index, tokens);
      AppendAssociative(before, Step(s, i0).0, Scan(s, index));
    }
    assert tokens + [] == tokens;
    tokens := NonEmpty(tokens);
  }

  // ---------------------------------------------------------------------------
  // Properties of the tokenizer

  /** Every scanned token is made of characters of `s`. */
  lemma {:induction false} ScanCharsFromInput(s: string, i: nat)
    ensures forall t, c :: t in Scan(s, i) && c in t ==> c in s
    decreases |s| - i
  {
    if i < |s| {
      ScanCharsFromInput(s, Step(s, i).1);
    }
  }

  /** No token is empty and none contains `;`; every character of a token
      comes from the query. */
  lemma TokensNonEmptyWithoutSemicolon(query: string)
    ensures forall t :: t in Tokenize(query) ==> t != "" && ';' !in t
    ensures forall t, c :: t in Tokenize(query) && c in t ==> c in query
  {
    var s := RemoveChar(query, ';');
    ScanCharsFromInput(s, 0);
  }

  /** Whitespace and `,` are skipped: they start no token. */
  lemma SeparatorsSkipped(s: string, i: nat)
    requires i < |s| && (IsWhitespace(s[i]) || s[i] == ',')
    ensures Scan(s, i) == Scan(s, i + 1)
  {
    assert Step(s, i) == ([], i + 1);
  }

  /** An unterminated quote swallows the rest of the input as one token. */
  lemma UnterminatedQuote(s: string, i: nat)
    requires i < |s| && s[i] == '\'' && '\'' !in s[i + 1..]
    ensures Scan(s, i) == [s[i + 1..]]
  {
    var j := RunEnd(s, i + 1, NotQuote);
    assert j == |s|;
    assert Scan(s, j + 1) == [];
    assert s[i + 1..j] == s[i + 1..];
  }

  /** `RunEnd` is the unique end of a maximal run. */
  lemma RunEndAt(s: string, i: nat, j: nat, inRun: char -> bool)
    requires i <= j <= |s|
    requires forall k :: i <= k < j ==> inRun(s[k])
    requires j < |s| ==> !inRun(s[j])
    ensures RunEnd(s, i, inRun) == j
  {
  }
}
