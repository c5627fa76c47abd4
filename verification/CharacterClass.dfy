/** Bracketed character classes of the repository filter grammar.

    The reference meaning of a member list is a plain left-to-right scan.  The
    program instead cuts the list at hyphens, merges reversed ranges from right
    to left, and reads literals and ranges off what is left. */
module CharacterClass {
  import opened Text
  import opened Wrappers

  datatype Class = Class(negated: bool, literals: seq<char>, ranges: seq<(char, char)>)

  predicate Between(range: (char, char), c: char) {
    range.0 <= c <= range.1
  }

  predicate InAnyRange(ranges: seq<(char, char)>, c: char) {
    exists k :: 0 <= k < |ranges| && Between(ranges[k], c)
  }

  predicate Contains(literals: seq<char>, ranges: seq<(char, char)>, c: char) {
    c in literals || InAnyRange(ranges, c)
  }

  predicate Matches(class_: Class, c: char) {
    Contains(class_.literals, class_.ranges, c) != class_.negated
  }

  // ----- reference meaning

  /** `x-y` with `y` present is the range from `x` to `y`, empty when reversed,
      and is skipped as a whole; any other character stands for itself. */
  predicate Scan(members: seq<char>, c: char) {
    if members == [] then false
    else if |members| >= 3 && members[1] == '-' then
      members[0] <= c <= members[2] || Scan(members[3..], c)
    else
      members[0] == c || Scan(members[1..], c)
  }

  // ----- the cut at hyphens

  /** The chunks of `s` when the first cut is looked for from position `from`. */
  function Split(s: seq<char>, from: nat): (chunks: seq<seq<char>>)
    requires s != []
    ensures |chunks| > 0
  {
    var hyphen := Find(s, '-', from);
    if hyphen.Some? && hyphen.value + 1 < |s| then
      [s[..hyphen.value]] + Split(s[hyphen.value + 1..], 2)
    else
      [s]
  }

  function Last(chunk: seq<char>): char
    requires chunk != []
  {
    chunk[|chunk| - 1]
  }

  /** What every chunk list met by the program looks like: `skip` characters of
      the first chunk are already spoken for by the range to its left. */
  predicate Cut(chunks: seq<seq<char>>, skip: nat) {
    && |chunks| > 0
    && forall k :: 0 <= k < |chunks| ==>
         |chunks[k]| >= if k == |chunks| - 1 then 1 else if k == 0 then 1 + skip else 2
  }

  /** The set a chunk list stands for: a range across each cut, the rest literal. */
  predicate Denotes(chunks: seq<seq<char>>, skip: nat, c: char)
    requires Cut(chunks, skip) && skip <= 1
  {
    var first := chunks[0];
    if |chunks| == 1 then c in first[skip..]
    else
      || c in first[skip..|first| - 1]
      || Last(first) <= c <= chunks[1][0]
      || Denotes(chunks[1..], 1, c)
  }

  lemma SplitUnfolds(s: seq<char>, start: nat, from: nat, hyphen: nat)
    requires start < |s| && 0 < from
    requires Find(s, '-', start + from) == Some(hyphen)
    ensures start < hyphen
    ensures Split(s[start..], from) ==
            if hyphen + 1 < |s| then [s[start..hyphen]] + Split(s[hyphen + 1..], 2) else [s[start..hyphen] + ['-']]
  {
    var rest := s[start..];
    FindInSuffix(s, '-', start, from);
    var at := hyphen - start;
    assert Find(rest, '-', from) == Some(at);
    assert rest[..at] == s[start..hyphen];
    if hyphen + 1 < |s| {
      assert Split(rest, from) == [rest[..at]] + Split(rest[at + 1..], 2);
      assert rest[at + 1..] == s[hyphen + 1..];
    } else {
      assert Split(rest, from) == [rest];
      assert rest == s[start..hyphen] + ['-'];
    }
  }

  lemma {:induction false} SplitIsCut(s: seq<char>, skip: nat)
    requires s != [] && skip <= 1
    ensures Cut(Split(s, 1 + skip), skip)
    ensures Split(s, 1 + skip)[0][0] == s[0]
    decreases |s|
  {
    var hyphen := Find(s, '-', 1 + skip);
    assert s[0..] == s;
    if hyphen.Some? {
      SplitUnfolds(s, 0, 1 + skip, hyphen.value);
      if hyphen.value + 1 < |s| {
        SplitIsCut(s[hyphen.value + 1..], 1);
        DenotesCons(s[..hyphen.value], Split(s[hyphen.value + 1..], 2), skip, 'x');
      }
    }
  }

  lemma {:induction false} SplitMeansScan(s: seq<char>, skip: nat, c: char)
    requires s != [] && skip <= 1 && Cut(Split(s, 1 + skip), skip)
    ensures Denotes(Split(s, 1 + skip), skip, c) <==> Scan(s[skip..], c)
    decreases |s|
  {
    var hyphen := Find(s, '-', 1 + skip);
    assert s[0..] == s;
    if hyphen.Some? && hyphen.value + 1 < |s| {
      var h := hyphen.value;
      SplitUnfolds(s, 0, 1 + skip, h);
      SplitIsCut(s[h + 1..], 1);
      SplitMeansScan(s[h + 1..], 1, c);
      DenotesCons(s[..h], Split(s[h + 1..], 2), skip, c);
      ScanAcross(s, skip, h, c);
    } else {
      ScanToEnd(s, skip, c);
    }
  }

  lemma ScanAcross(s: seq<char>, skip: nat, h: nat, c: char)
    requires skip <= 1 && Find(s, '-', 1 + skip) == Some(h) && h + 1 < |s|
    ensures Scan(s[skip..], c) <==>
            || c in s[..h][skip..h - 1]
            || s[h - 1] <= c <= s[h + 1]
            || Scan(s[h + 1..][1..], c)
  {
    var rest := s[skip..];
    forall k | 1 <= k < h - skip ensures rest[k] != '-' {
      FindIsFirst(s, '-', 1 + skip, k + skip);
    }
    ScanToHyphen(rest, h - skip, c);
    assert rest[..h - skip - 1] == s[..h][skip..h - 1];
    assert rest[h - skip + 2..] == s[h + 1..][1..];
  }

  lemma ScanToEnd(s: seq<char>, skip: nat, c: char)
    requires s != [] && skip <= 1
    requires var r := Find(s, '-', 1 + skip); r.Some? ==> r.value + 1 == |s|
    ensures Scan(s[skip..], c) <==> c in s[skip..]
  {
    var rest := s[skip..];
    forall k | 1 <= k < |rest| - 1 ensures rest[k] != '-' {
      FindIsFirst(s, '-', 1 + skip, k + skip);
    }
    ScanNoRange(rest, c);
  }

  lemma DenotesCons(head: seq<char>, tail: seq<seq<char>>, skip: nat, c: char)
    requires skip < |head| && skip <= 1 && Cut(tail, 1)
    ensures Cut([head] + tail, skip)
    ensures Denotes([head] + tail, skip, c) <==>
            || c in head[skip..|head| - 1]
            || Last(head) <= c <= tail[0][0]
            || Denotes(tail, 1, c)
  {
    assert ([head] + tail)[1..] == tail;
  }

  /** Up to the first hyphen that separates a range, every character is a literal. */
  lemma {:induction false} ScanToHyphen(s: seq<char>, h: nat, c: char)
    requires 1 <= h && h + 1 < |s| && s[h] == '-'
    requires forall k :: 1 <= k < h ==> s[k] != '-'
    ensures Scan(s, c) <==> c in s[..h - 1] || s[h - 1] <= c <= s[h + 1] || Scan(s[h + 2..], c)
  {
    if h > 1 {
      ScanToHyphen(s[1..], h - 1, c);
      assert s[..h - 1] == [s[0]] + s[1..][..h - 2];
      assert s[1..][h + 1..] == s[h + 2..];
    }
  }

  /** Without such a hyphen the whole list is literal, a trailing hyphen included. */
  lemma {:induction false} ScanNoRange(s: seq<char>, c: char)
    requires forall k :: 1 <= k < |s| - 1 ==> s[k] != '-'
    ensures Scan(s, c) <==> c in s
  {
    if s != [] {
      ScanNoRange(s[1..], c);
      assert s == [s[0]] + s[1..];
    }
  }

  // ----- the merge of reversed ranges

  predicate Reversed(left: seq<char>, right: seq<char>) {
    left != [] && right != [] && left[|left| - 1] > right[0]
  }

  function Join(left: seq<char>, right: seq<char>): seq<char>
    requires Reversed(left, right)
  {
    left[..|left| - 1] + right[1..]
  }

  /** Merging from the right, as a function of the whole list. */
  function Merge(chunks: seq<seq<char>>): (merged: seq<seq<char>>)
    ensures |merged| <= |chunks|
    ensures chunks != [] ==> merged != []
  {
    if |chunks| <= 1 then chunks
    else
      var rest := Merge(chunks[1..]);
      if Reversed(chunks[0], rest[0]) then [Join(chunks[0], rest[0])] + rest[1..]
      else [chunks[0]] + rest
  }

  function Flatten(chunks: seq<seq<char>>): seq<char> {
    if chunks == [] then [] else chunks[0] + Flatten(chunks[1..])
  }

  /** The ranges between neighbouring chunks; an empty chunk contributes none. */
  function AdjacentRanges(chunks: seq<seq<char>>): seq<(char, char)> {
    if |chunks| < 2 then []
    else
      (if chunks[0] != [] && chunks[1] != [] then [(Last(chunks[0]), chunks[1][0])] else [])
      + AdjacentRanges(chunks[1..])
  }

  lemma InAnyRangeConcat(a: seq<(char, char)>, b: seq<(char, char)>, c: char)
    ensures InAnyRange(a + b, c) <==> InAnyRange(a, c) || InAnyRange(b, c)
  {
    if InAnyRange(a, c) {
      var k :| 0 <= k < |a| && Between(a[k], c);
      assert Between((a + b)[k], c);
    }
    if InAnyRange(b, c) {
      var k :| 0 <= k < |b| && Between(b[k], c);
      assert Between((a + b)[|a| + k], c);
    }
  }

  /** What the program reads off a merged list, less the `skip` characters at its head. */
  predicate Reads(merged: seq<seq<char>>, skip: nat, c: char)
    requires merged != [] && |merged[0]| >= skip
  {
    c in merged[0][skip..] || c in Flatten(merged[1..]) || InAnyRange(AdjacentRanges(merged), c)
  }

  lemma DropLast(chunk: seq<char>, skip: nat)
    requires skip < |chunk|
    ensures chunk[skip..] == chunk[skip..|chunk| - 1] + [Last(chunk)]
  {
  }

  lemma {:induction false} MergeKeepsMeaning(chunks: seq<seq<char>>, skip: nat, c: char)
    requires Cut(chunks, skip) && skip <= 1
    ensures var merged := Merge(chunks);
            && |merged[0]| >= skip
            && (skip == 1 ==> merged[0][0] == chunks[0][0])
            && (skip == 1 && |merged| > 1 ==> |merged[0]| >= 2)
            && (Reads(merged, skip, c) <==> Denotes(chunks, skip, c))
  {
    if |chunks| > 1 {
      var first := chunks[0];
      var rest := Merge(chunks[1..]);
      MergeKeepsMeaning(chunks[1..], 1, c);
      assert rest[0] == [rest[0][0]] + rest[0][1..];
      if Reversed(first, rest[0]) {
        JoinReads(first, rest, skip, c);
      } else {
        PrependReads(first, rest, skip, c);
      }
    }
  }

  /** A reversed range is empty: joining its chunks loses its two ends and nothing else. */
  lemma JoinReads(first: seq<char>, rest: seq<seq<char>>, skip: nat, c: char)
    requires rest != [] && skip < |first| && Reversed(first, rest[0])
    requires |rest| > 1 ==> |rest[0]| >= 2
    ensures var merged := [Join(first, rest[0])] + rest[1..];
            Reads(merged, skip, c) <==> c in first[skip..|first| - 1] || Reads(rest, 1, c)
  {
    var joined := Join(first, rest[0]);
    assert joined[skip..] == first[skip..|first| - 1] + rest[0][1..];
    assert ([joined] + rest[1..])[1..] == rest[1..];
    if |rest| > 1 {
      assert Last(joined) == Last(rest[0]);
    }
  }

  /** A range that is kept lies across the cut. */
  lemma PrependReads(first: seq<char>, rest: seq<seq<char>>, skip: nat, c: char)
    requires rest != [] && rest[0] != [] && skip < |first| && !Reversed(first, rest[0])
    ensures Reads([first] + rest, skip, c) <==>
            c in first[skip..|first| - 1] || Last(first) <= c <= rest[0][0] || Reads(rest, 1, c)
  {
    var merged, step := [first] + rest, (Last(first), rest[0][0]);
    assert merged[1..] == rest;
    assert AdjacentRanges(merged) == [step] + AdjacentRanges(rest);
    InAnyRangeConcat([step], AdjacentRanges(rest), c);
    assert InAnyRange([step], c) <==> Between(step, c) by {
      assert [step][0] == step;
    }
    DropLast(first, skip);
    assert rest[0] == [rest[0][0]] + rest[0][1..];
    assert Flatten(rest) == rest[0] + Flatten(rest[1..]);
  }

  // ----- the program

  /** `chunks`, then what is still to be cut from `start`, make up `goal`. */
  ghost predicate CutSoFar(
    goal: seq<seq<char>>, members: seq<char>, chunks: seq<seq<char>>, start: nat, from: nat)
  {
    start < |members| ==> chunks + Split(members[start..], from) == goal
  }

  /** A trailing hyphen has been cut off and is still owed to the last chunk. */
  ghost predicate OwesHyphen(goal: seq<seq<char>>, chunks: seq<seq<char>>) {
    chunks != [] && chunks[..|chunks| - 1] + [chunks[|chunks| - 1] + ['-']] == goal
  }

  lemma CutStep(
    goal: seq<seq<char>>, members: seq<char>, chunks: seq<seq<char>>, start: nat, from: nat, hyphen: nat)
    requires start < |members| && 0 < from && CutSoFar(goal, members, chunks, start, from)
    requires Find(members, '-', start + from) == Some(hyphen)
    ensures start < hyphen
    ensures CutSoFar(goal, members, chunks + [members[start..hyphen]], hyphen + 1, 2)
    ensures hyphen + 1 == |members| ==> OwesHyphen(goal, chunks + [members[start..hyphen]])
  {
    SplitUnfolds(members, start, from, hyphen);
    var chunk := members[start..hyphen];
    assert (chunks + [chunk])[..|chunks|] == chunks;
  }

  /** Cuts `members` at the hyphens that can separate a range. */
  method CutAtHyphens(members: seq<char>) returns (chunks: seq<seq<char>>)
    requires members != []
    ensures chunks == Split(members, 1)
  {
    chunks := [];
    var chunkStart: nat, searchFrom: nat := 0, 1;
    assert members[0..] == members;
    var hyphen := Find(members, '-', searchFrom);
    ghost var goal := Split(members, 1);
    while hyphen.Some?
      invariant chunkStart <= |members| && hyphen == Find(members, '-', searchFrom)
      invariant searchFrom == chunkStart + (if chunks == [] then 1 else 2)
      invariant CutSoFar(goal, members, chunks, chunkStart, searchFrom - chunkStart)
      invariant chunkStart == |members| ==> OwesHyphen(goal, chunks)
      decreases |members| - chunkStart
    {
      CutStep(goal, members, chunks, chunkStart, searchFrom - chunkStart, hyphen.value);
      chunks := chunks + [members[chunkStart..hyphen.value]];
      chunkStart := hyphen.value + 1;
      searchFrom := hyphen.value + 3;
      hyphen := Find(members, '-', searchFrom);
    }
    if chunkStart < |members| {
      FindInSuffix(members, '-', chunkStart, searchFrom - chunkStart);
      chunks := chunks + [members[chunkStart..]];
    } else {
      chunks := chunks[|chunks| - 1 := chunks[|chunks| - 1] + ['-']];
    }
  }

  /** Merges reversed ranges in place, from the last pair of chunks to the first. */
  method MergeReversed(cut: seq<seq<char>>) returns (chunks: seq<seq<char>>)
    requires cut != []
    ensures chunks == Merge(cut)
  {
    chunks := cut;
    for index := |cut| downto 1
      invariant chunks == cut[..index - 1] + Merge(cut[index - 1..])
    {
      var left, right := chunks[index - 1], chunks[index];
      assert cut[index - 1..][1..] == cut[index..];
      assert left == cut[index - 1] && right == Merge(cut[index..])[0];
      assert cut[..index] == cut[..index - 1] + [cut[index - 1]];
      if Reversed(left, right) {
        chunks := chunks[index - 1 := Join(left, right)];
        chunks := chunks[..index] + chunks[index + 1..];
      }
    }
  }

  /** The literals and ranges of a member list accept exactly the characters the
      plain scan accepts. */
  method ClassMembers(members: seq<char>) returns (literals: seq<char>, ranges: seq<(char, char)>)
    ensures forall c :: Contains(literals, ranges, c) <==> Scan(members, c)
  {
    if '-' !in members {
      literals, ranges := members, [];
      forall c ensures c in members <==> Scan(members, c) {
        ScanNoRange(members, c);
      }
      return;
    }
    var cut := CutAtHyphens(members);
    var chunks := MergeReversed(cut);
    literals, ranges := Flatten(chunks), AdjacentRanges(chunks);
    forall c ensures Contains(literals, ranges, c) <==> Scan(members, c) {
      SplitIsCut(members, 0);
      SplitMeansScan(members, 0, c);
      MergeKeepsMeaning(cut, 0, c);
      assert members[0..] == members && chunks[0][0..] == chunks[0];
    }
  }
}
