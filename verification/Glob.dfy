/** Repository filter patterns: the compiler to tokens and the matcher over them.

    The reference meaning is Python's `fnmatchcase` on the raw pattern, written
    as a direct recursion. */
module Glob {
  import opened CharacterClass
  import opened Text
  import opened Wrappers

  datatype Token = Literal(expected: char) | AnyCharacter | Star | OneOf(class_: Class)

  // ----- reference meaning of a raw pattern

  function FirstMember(pattern: seq<char>, bracket: nat): nat {
    if bracket + 1 < |pattern| && pattern[bracket + 1] == '!' then bracket + 2 else bracket + 1
  }

  /** A class ends at the first `]` after its first member. */
  function ClosingBracket(pattern: seq<char>, bracket: nat): Option<nat> {
    Find(pattern, ']', FirstMember(pattern, bracket) + 1)
  }

  predicate InClass(pattern: seq<char>, bracket: nat, c: char)
    requires ClosingBracket(pattern, bracket).Some?
  {
    var first := FirstMember(pattern, bracket);
    Scan(pattern[first..ClosingBracket(pattern, bracket).value], c) != (first == bracket + 2)
  }

  /** The suffix of `pattern` from `i` matches the whole of `text`. */
  predicate FnMatch(pattern: seq<char>, i: nat, text: seq<char>)
    requires i <= |pattern|
    decreases |pattern| - i, |text|
  {
    if i == |pattern| then text == []
    else if pattern[i] == '*' then
      FnMatch(pattern, i + 1, text) || (text != [] && FnMatch(pattern, i, text[1..]))
    else if pattern[i] == '?' then
      text != [] && FnMatch(pattern, i + 1, text[1..])
    else if pattern[i] == '[' && ClosingBracket(pattern, i).Some? then
      text != [] && InClass(pattern, i, text[0]) && FnMatch(pattern, ClosingBracket(pattern, i).value + 1, text[1..])
    else
      text != [] && text[0] == pattern[i] && FnMatch(pattern, i + 1, text[1..])
  }

  // ----- meaning of tokens

  predicate Accepts(token: Token, c: char)
    requires !token.Star?
  {
    match token
    case Literal(expected) => c == expected
    case AnyCharacter => true
    case OneOf(class_) => Matches(class_, c)
  }

  predicate TokensMatch(tokens: seq<Token>, text: seq<char>)
    decreases |tokens|, |text|
  {
    if tokens == [] then text == []
    else if tokens[0].Star? then
      TokensMatch(tokens[1..], text) || (text != [] && TokensMatch(tokens, text[1..]))
    else
      text != [] && Accepts(tokens[0], text[0]) && TokensMatch(tokens[1..], text[1..])
  }

  // ----- compilation

  /** `tokens`, then what is left of the raw pattern. */
  ghost predicate TokensThen(tokens: seq<Token>, pattern: seq<char>, i: nat, text: seq<char>)
    requires i <= |pattern|
    decreases |tokens|, |text|
  {
    if tokens == [] then FnMatch(pattern, i, text)
    else if tokens[0].Star? then
      TokensThen(tokens[1..], pattern, i, text) || (text != [] && TokensThen(tokens, pattern, i, text[1..]))
    else
      text != [] && Accepts(tokens[0], text[0]) && TokensThen(tokens[1..], pattern, i, text[1..])
  }

  lemma {:induction false} TokensThenNothing(tokens: seq<Token>, pattern: seq<char>, text: seq<char>)
    ensures TokensThen(tokens, pattern, |pattern|, text) <==> TokensMatch(tokens, text)
    decreases |tokens|, |text|
  {
    if tokens != [] {
      TokensThenNothing(tokens[1..], pattern, text);
      if text != [] {
        TokensThenNothing(tokens[1..], pattern, text[1..]);
        TokensThenNothing(tokens, pattern, text[1..]);
      }
    }
  }

  /** `token` does for every text what the raw pattern does between `i` and `j`. */
  ghost predicate Stands(token: Token, pattern: seq<char>, i: nat, j: nat)
    requires i <= |pattern| && j <= |pattern|
  {
    forall text :: FnMatch(pattern, i, text) <==> TokensThen([token], pattern, j, text)
  }

  lemma {:induction false} PushToken(
    tokens: seq<Token>, token: Token, pattern: seq<char>, i: nat, j: nat, text: seq<char>)
    requires i <= |pattern| && j <= |pattern| && Stands(token, pattern, i, j)
    ensures TokensThen(tokens + [token], pattern, j, text) <==> TokensThen(tokens, pattern, i, text)
    decreases |tokens|, |text|
  {
    if tokens == [] {
      assert tokens + [token] == [token];
    } else {
      assert (tokens + [token])[1..] == tokens[1..] + [token];
      PushToken(tokens[1..], token, pattern, i, j, text);
      if text != [] {
        PushToken(tokens[1..], token, pattern, i, j, text[1..]);
        PushToken(tokens, token, pattern, i, j, text[1..]);
      }
    }
  }

  lemma {:induction false} StarStands(pattern: seq<char>, i: nat, text: seq<char>)
    requires i < |pattern| && pattern[i] == '*'
    ensures FnMatch(pattern, i, text) <==> TokensThen([Star], pattern, i + 1, text)
    decreases |text|
  {
    assert [Star][1..] == [];
    if text != [] {
      StarStands(pattern, i, text[1..]);
    }
  }

  /** A star after a star adds nothing. */
  lemma {:induction false} CollapseStar(tokens: seq<Token>, pattern: seq<char>, i: nat, text: seq<char>)
    requires i < |pattern| && pattern[i] == '*' && tokens != [] && tokens[|tokens| - 1].Star?
    ensures TokensThen(tokens, pattern, i, text) <==> TokensThen(tokens, pattern, i + 1, text)
    decreases |tokens|, |text|
  {
    if |tokens| == 1 {
      assert tokens == [Star] && tokens[1..] == [];
      StarStands(pattern, i, text);
    } else {
      CollapseStar(tokens[1..], pattern, i, text);
    }
    if text != [] {
      if |tokens| > 1 {
        CollapseStar(tokens[1..], pattern, i, text[1..]);
      }
      CollapseStar(tokens, pattern, i, text[1..]);
    }
  }

  /** Parses the class that opens just before `start`, or finds it unclosed. */
  method ParseClass(pattern: seq<char>, start: nat) returns (r: Option<(Class, nat)>)
    requires 0 < start <= |pattern|
    ensures r.None? <==> ClosingBracket(pattern, start - 1).None?
    ensures r.Some? ==>
              && r.value.1 == ClosingBracket(pattern, start - 1).value + 1
              && forall c :: Matches(r.value.0, c) <==> InClass(pattern, start - 1, c)
  {
    var end := start;
    if end < |pattern| && pattern[end] == '!' {
      end := end + 1;
    }
    var first := end;
    if end < |pattern| && pattern[end] == ']' {
      end := end + 1;
    }
    while end < |pattern| && pattern[end] != ']'
      invariant first <= end <= |pattern|
      invariant end == first ==> end == |pattern| || pattern[end] != ']'
      invariant Find(pattern, ']', first + 1) == Find(pattern, ']', if end == first then first + 1 else end)
    {
      end := end + 1;
    }
    if end == |pattern| {
      return None;
    }
    var content := pattern[start..end];
    var negated := content[0] == '!' && first == start + 1;
    var members := if negated then content[1..] else content;
    assert members == pattern[first..end];
    var literals, ranges := ClassMembers(members);
    r := Some((Class(negated, literals, ranges), end + 1));
  }

  ghost predicate NoDoubledStar(tokens: seq<Token>) {
    forall k :: 0 < k < |tokens| ==> !(tokens[k - 1].Star? && tokens[k].Star?)
  }

  /** The token for what the pattern holds at `index`, unless that is a star. */
  method TakeToken(pattern: seq<char>, index: nat) returns (token: Token, next: nat)
    requires index < |pattern| && pattern[index] != '*'
    ensures index < next <= |pattern| && !token.Star? && Stands(token, pattern, index, next)
  {
    token, next := Literal(pattern[index]), index + 1;
    if pattern[index] == '?' {
      token := AnyCharacter;
    } else if pattern[index] == '[' {
      var parsed := ParseClass(pattern, index + 1);
      if parsed.Some? {
        token, next := OneOf(parsed.value.0), parsed.value.1;
      }
    }
    assert [token][1..] == [];
  }

  /** The tokens of a normalized pattern match exactly the texts the pattern matches. */
  method CompileNormalized(pattern: seq<char>) returns (tokens: seq<Token>)
    ensures forall text :: TokensMatch(tokens, text) <==> FnMatch(pattern, 0, text)
    ensures |tokens| <= |pattern| && NoDoubledStar(tokens)
  {
    tokens := [];
    var index := 0;
    while index < |pattern|
      invariant index <= |pattern| && |tokens| <= index && NoDoubledStar(tokens)
      invariant forall text :: TokensThen(tokens, pattern, index, text) <==> FnMatch(pattern, 0, text)
    {
      if pattern[index] == '*' {
        if tokens == [] || !tokens[|tokens| - 1].Star? {
          forall text { StarStands(pattern, index, text); }
          forall text { PushToken(tokens, Star, pattern, index, index + 1, text); }
          tokens := tokens + [Star];
        } else {
          forall text { CollapseStar(tokens, pattern, index, text); }
        }
        index := index + 1;
      } else {
        var token, next := TakeToken(pattern, index);
        forall text { PushToken(tokens, token, pattern, index, next, text); }
        tokens := tokens + [token];
        index := next;
      }
    }
    forall text { TokensThenNothing(tokens, pattern, text); }
  }

  // ----- the two-row matcher

  lemma {:induction false} LastTokenOne(tokens: seq<Token>, token: Token, text: seq<char>)
    requires !token.Star?
    ensures TokensMatch(tokens + [token], text) <==>
            text != [] && Accepts(token, text[|text| - 1]) && TokensMatch(tokens, text[..|text| - 1])
    decreases |tokens|, |text|
  {
    if tokens == [] {
      assert tokens + [token] == [token] && [token][1..] == [];
    } else {
      assert (tokens + [token])[1..] == tokens[1..] + [token];
      LastTokenOne(tokens[1..], token, text);
      if text != [] {
        LastTokenOne(tokens[1..], token, text[1..]);
        LastTokenOne(tokens, token, text[1..]);
        if |text| > 1 {
          assert text[1..][..|text| - 2] == text[..|text| - 1][1..];
        }
      }
    }
  }

  lemma {:induction false} LastTokenStar(tokens: seq<Token>, text: seq<char>)
    ensures TokensMatch(tokens + [Star], text) <==>
            TokensMatch(tokens, text) || (text != [] && TokensMatch(tokens + [Star], text[..|text| - 1]))
    decreases |tokens|, |text|
  {
    if tokens == [] {
      assert tokens + [Star] == [Star] && [Star][1..] == [];
      StarMatchesAll(text);
      if text != [] {
        StarMatchesAll(text[..|text| - 1]);
      }
    } else {
      assert (tokens + [Star])[1..] == tokens[1..] + [Star];
      LastTokenStar(tokens[1..], text);
      if text != [] {
        LastTokenStar(tokens[1..], text[1..]);
        LastTokenStar(tokens, text[1..]);
        if |text| > 1 {
          assert text[1..][..|text| - 2] == text[..|text| - 1][1..];
        }
      }
    }
  }

  lemma {:induction false} StarMatchesAll(text: seq<char>)
    ensures TokensMatch([Star], text)
    decreases |text|
  {
    assert [Star][1..] == [];
    if text != [] {
      StarMatchesAll(text[1..]);
    }
  }

  /** Cell `j` of a row says whether the tokens done so far match the first `j` characters. */
  ghost predicate Row(done: seq<Token>, path: seq<char>, row: array<bool>)
    reads row
  {
    row.Length == |path| + 1 && forall j :: 0 <= j <= |path| ==> row[j] == TokensMatch(done, path[..j])
  }

  lemma RowStep(done: seq<Token>, token: Token, path: seq<char>, j: nat)
    requires 1 <= j <= |path|
    ensures TokensMatch(done + [token], path[..j]) <==>
            if token.Star? then TokensMatch(done, path[..j]) || TokensMatch(done + [token], path[..j - 1])
            else TokensMatch(done, path[..j - 1]) && Accepts(token, path[j - 1])
  {
    assert path[..j][..j - 1] == path[..j - 1];
    if token.Star? {
      LastTokenStar(done, path[..j]);
    } else {
      LastTokenOne(done, token, path[..j]);
    }
  }

  lemma RowStart(done: seq<Token>, token: Token)
    ensures TokensMatch(done + [token], []) <==> token.Star? && TokensMatch(done, [])
  {
    if token.Star? {
      LastTokenStar(done, []);
    } else {
      LastTokenOne(done, token, []);
    }
  }

  /** Fills `next` from `current` for one more token, counting the cells written. */
  method NextRow(ghost done: seq<Token>, token: Token, path: seq<char>, current: array<bool>, next: array<bool>)
    returns (ghost writes: nat)
    requires current != next && Row(done, path, current) && next.Length == |path| + 1
    modifies next
    ensures Row(done + [token], path, next)
    ensures writes <= 2 * |path| + 2
  {
    var n := |path|;
    forall k | 0 <= k <= n { next[k] := false; }
    writes := n + 1;
    RowStart(done, token);
    assert path[..0] == [];
    match token
    case Star =>
      next[0] := current[0];
      writes := writes + 1;
      for index := 1 to n + 1
        invariant forall j :: 0 <= j < index ==> next[j] == TokensMatch(done + [token], path[..j])
        invariant writes == n + 1 + index
      {
        RowStep(done, token, path, index);
        next[index] := current[index] || next[index - 1];
        writes := writes + 1;
      }
    case AnyCharacter =>
      forall k | 0 <= k < n { next[k + 1] := current[k]; }
      writes := writes + n;
      forall j | 1 <= j <= n { RowStep(done, token, path, j); }
    case Literal(_) =>
      for index := 0 to n
        invariant forall j :: 0 <= j <= index ==> next[j] == TokensMatch(done + [token], path[..j])
        invariant writes == n + 1 + index
      {
        RowStep(done, token, path, index + 1);
        next[index + 1] := current[index] && path[index] == token.expected;
        writes := writes + 1;
      }
    case OneOf(class_) =>
      for index := 0 to n
        invariant forall j :: 0 <= j <= index ==> next[j] == TokensMatch(done + [token], path[..j])
        invariant writes == n + 1 + index
      {
        RowStep(done, token, path, index + 1);
        next[index + 1] := current[index] && Matches(class_, path[index]);
        writes := writes + 1;
      }
  }

  /** The two-row matcher decides the token semantics, writing a number of cells
      linear in tokens times cells of a row. */
  method MatchTokens(tokens: seq<Token>, path: seq<char>) returns (matched: bool, ghost writes: nat)
    ensures matched == TokensMatch(tokens, path)
    ensures writes <= |tokens| * (2 * |path| + 2) + 1
  {
    var current := new bool[|path| + 1](_ => false);
    var next := new bool[|path| + 1](_ => false);
    current[0] := true;
    writes := 1;
    for i := 0 to |tokens|
      invariant fresh(current) && fresh(next) && current != next
      invariant Row(tokens[..i], path, current) && next.Length == |path| + 1
      invariant writes <= i * (2 * |path| + 2) + 1
    {
      ghost var cells := NextRow(tokens[..i], tokens[i], path, current, next);
      assert tokens[..i + 1] == tokens[..i] + [tokens[i]];
      current, next := next, current;
      writes := writes + cells;
    }
    assert tokens[..|tokens|] == tokens && path[..|path|] == path;
    matched := current[|path|];
  }

  // ----- whole patterns

  function Slashes(pattern: seq<char>): (r: seq<char>)
    ensures |r| == |pattern|
  {
    seq(|pattern|, i requires 0 <= i < |pattern| => if pattern[i] == '\\' then '/' else pattern[i])
  }

  function Normalize(pattern: seq<char>): seq<char> {
    var normalized := Slashes(pattern);
    if normalized != [] && normalized[|normalized| - 1] == '/' then normalized + ['*'] else normalized
  }

  /** A pattern as a user writes it, against a whole path. */
  predicate PatternMatches(pattern: seq<char>, path: seq<char>) {
    FnMatch(Normalize(pattern), 0, path)
  }

  // ----- laws of the pattern language

  /** A star stands for any stretch of text, the empty one and separators included. */
  lemma {:induction false} StarSplits(pattern: seq<char>, i: nat, text: seq<char>)
    requires i < |pattern| && pattern[i] == '*'
    ensures FnMatch(pattern, i, text) <==> exists k :: 0 <= k <= |text| && FnMatch(pattern, i + 1, text[k..])
    decreases |text|
  {
    assert text[0..] == text;
    if text != [] {
      StarSplits(pattern, i, text[1..]);
      if k :| 0 <= k <= |text| - 1 && FnMatch(pattern, i + 1, text[1..][k..]) {
        assert text[1..][k..] == text[k + 1..];
      }
      if k :| 0 < k <= |text| && FnMatch(pattern, i + 1, text[k..]) {
        assert text[1..][k - 1..] == text[k..];
      }
    }
  }

  /** `spelled` is `pattern` with every backslash written as a slash. */
  predicate SpelledWithSlashes(pattern: seq<char>, spelled: seq<char>) {
    && |spelled| == |pattern|
    && forall k :: 0 <= k < |pattern| ==> spelled[k] == if pattern[k] == '\\' then '/' else pattern[k]
  }

  /** Either separator may be written. */
  lemma SeparatorSpelling(pattern: seq<char>, i: nat, path: seq<char>)
    requires i < |pattern| && pattern[i] == '\\'
    ensures PatternMatches(pattern, path) <==> PatternMatches(pattern[i := '/'], path)
  {
    assert Slashes(pattern) == Slashes(pattern[i := '/']);
  }

  /** A pattern that does not end in a separator means what it spells with slashes. */
  lemma PlainPattern(pattern: seq<char>, spelled: seq<char>, path: seq<char>)
    requires SpelledWithSlashes(pattern, spelled)
    requires pattern != [] ==> pattern[|pattern| - 1] !in "/\\"
    ensures PatternMatches(pattern, path) <==> FnMatch(spelled, 0, path)
  {
    assert Slashes(pattern) == spelled;
  }

  lemma AppendedStar(pattern: seq<char>, i: nat)
    requires i < |pattern|
    ensures ClosingBracket(pattern + ['*'], i) == ClosingBracket(pattern, i)
    ensures ClosingBracket(pattern, i).Some? ==>
              forall c :: InClass(pattern + ['*'], i, c) <==> InClass(pattern, i, c)
  {
    var longer := pattern + ['*'];
    FindAppended(pattern, FirstMember(pattern, i) + 1);
    if ClosingBracket(pattern, i).Some? {
      var first, end := FirstMember(pattern, i), ClosingBracket(pattern, i).value;
      assert longer[first..end] == pattern[first..end];
    }
  }

  lemma {:induction false} FindAppended(pattern: seq<char>, from: nat)
    ensures Find(pattern + ['*'], ']', from) == Find(pattern, ']', from)
    decreases |pattern| - from
  {
    if from < |pattern| {
      FindAppended(pattern, from + 1);
    }
  }

  /** With a star after it, a pattern matches whatever begins with a match. */
  lemma {:induction false} StarAfter(pattern: seq<char>, i: nat, text: seq<char>, rest: seq<char>)
    requires i <= |pattern| && FnMatch(pattern, i, text)
    ensures FnMatch(pattern + ['*'], i, text + rest)
    decreases |pattern| - i, |text|
  {
    var longer := pattern + ['*'];
    if i == |pattern| {
      StarSuffix(longer, i, text + rest);
    } else {
      if text != [] {
        assert (text + rest)[1..] == text[1..] + rest;
      }
      AppendedStar(pattern, i);
      if pattern[i] == '*' {
        if FnMatch(pattern, i + 1, text) {
          StarAfter(pattern, i + 1, text, rest);
        } else {
          StarAfter(pattern, i, text[1..], rest);
        }
      } else {
        var next := if pattern[i] == '[' && ClosingBracket(pattern, i).Some? then ClosingBracket(pattern, i).value + 1
                    else i + 1;
        StarAfter(pattern, next, text[1..], rest);
      }
    }
  }

  /** And nothing else. */
  lemma {:induction false} MatchBeforeStar(pattern: seq<char>, i: nat, text: seq<char>) returns (k: nat)
    requires i <= |pattern| && FnMatch(pattern + ['*'], i, text)
    ensures k <= |text| && FnMatch(pattern, i, text[..k])
    decreases |pattern| - i, |text|
  {
    var longer := pattern + ['*'];
    if i == |pattern| {
      k := 0;
    } else {
      AppendedStar(pattern, i);
      if pattern[i] == '*' && FnMatch(longer, i + 1, text) {
        k := MatchBeforeStar(pattern, i + 1, text);
      } else {
        var next := if pattern[i] == '*' then i
                    else if pattern[i] == '[' && ClosingBracket(pattern, i).Some? then
                      ClosingBracket(pattern, i).value + 1
                    else i + 1;
        k := MatchBeforeStar(pattern, next, text[1..]);
        k := k + 1;
        assert text[..k][1..] == text[1..][..k - 1] && text[..k][0] == text[0];
      }
    }
  }

  /** A pattern that ends in a separator, either one, matches what begins with a match of
      the pattern as spelled with slashes. */
  lemma TrailingSeparator(pattern: seq<char>, spelled: seq<char>, path: seq<char>)
    requires SpelledWithSlashes(pattern, spelled) && pattern != [] && pattern[|pattern| - 1] in "/\\"
    ensures PatternMatches(pattern, path) <==> exists k :: 0 <= k <= |path| && FnMatch(spelled, 0, path[..k])
  {
    assert Slashes(pattern) == spelled;
    if FnMatch(spelled + ['*'], 0, path) {
      var k := MatchBeforeStar(spelled, 0, path);
    }
    if k :| 0 <= k <= |path| && FnMatch(spelled, 0, path[..k]) {
      StarAfter(spelled, 0, path[..k], path[k..]);
      assert path[..k] + path[k..] == path;
    }
  }

  /** Without wildcards a pattern matches itself. */
  lemma {:induction false} LiteralPattern(pattern: seq<char>, i: nat, text: seq<char>)
    requires i <= |pattern| && forall k :: 0 <= k < |pattern| ==> pattern[k] !in "*?["
    ensures FnMatch(pattern, i, text) <==> text == pattern[i..]
    decreases |pattern| - i
  {
    if i < |pattern| && text != [] {
      LiteralPattern(pattern, i + 1, text[1..]);
      assert pattern[i..] == [pattern[i]] + pattern[i + 1..] && text == [text[0]] + text[1..];
    }
  }

  /** So without wildcards it selects exactly the paths it is a prefix of. */
  lemma DirectoryPattern(pattern: seq<char>, spelled: seq<char>, path: seq<char>)
    requires SpelledWithSlashes(pattern, spelled) && pattern != [] && pattern[|pattern| - 1] in "/\\"
    requires forall k :: 0 <= k < |pattern| ==> pattern[k] !in "*?["
    ensures PatternMatches(pattern, path) <==> spelled <= path
  {
    TrailingSeparator(pattern, spelled, path);
    forall k | 0 <= k <= |path| ensures FnMatch(spelled, 0, path[..k]) <==> path[..k] == spelled {
      LiteralPattern(spelled, 0, path[..k]);
    }
    if spelled <= path {
      assert path[..|spelled|] == spelled;
    }
  }

  lemma {:induction false} StarSuffix(pattern: seq<char>, i: nat, text: seq<char>)
    requires i + 1 == |pattern| && pattern[i] == '*'
    ensures FnMatch(pattern, i, text)
    decreases |text|
  {
    if text != [] {
      StarSuffix(pattern, i, text[1..]);
    }
  }
}
