/** Repository filters: which paths of a tree a request selects, and under which identity. */
module Filter {
  import opened Glob
  import opened Keys
  import opened Sorting
  import opened Text
  import opened Wrappers

  datatype RepositoryFilter = RepositoryFilter(allow: Option<seq<seq<Token>>>, ignore: seq<seq<Token>>)

  datatype Selection = Selection(paths: seq<string>, id: Digest)

  // ----- what a user asked for

  ghost predicate AnyPattern(patterns: seq<string>, path: string) {
    exists pattern :: pattern in patterns && PatternMatches(pattern, path)
  }

  /** An omitted allow list admits everything, an empty one nothing; ignoring wins. */
  ghost predicate Wanted(allow: Option<seq<string>>, ignore: seq<string>, path: string) {
    (allow.Some? ==> AnyPattern(allow.value, path)) && !AnyPattern(ignore, path)
  }

  // ----- the filter built from it

  ghost predicate AnyTokens(compiled: seq<seq<Token>>, path: string) {
    exists k :: 0 <= k < |compiled| && TokensMatch(compiled[k], path)
  }

  ghost predicate Included(filter: RepositoryFilter, path: string) {
    (filter.allow.Some? ==> AnyTokens(filter.allow.value, path)) && !AnyTokens(filter.ignore, path)
  }

  /** Sorting and dropping repeated spellings changes nothing a path can see. */
  method CompilePatterns(patterns: seq<string>) returns (compiled: seq<seq<Token>>)
    ensures forall path :: AnyTokens(compiled, path) <==> AnyPattern(patterns, path)
  {
    var normalized := seq(|patterns|, i requires 0 <= i < |patterns| => Normalize(patterns[i]));
    var unique := Canonical(normalized);
    CanonicalIsStrict(normalized);
    compiled := [];
    for k := 0 to |unique|
      invariant |compiled| == k
      invariant forall j, path :: 0 <= j < k ==> (TokensMatch(compiled[j], path) <==> FnMatch(unique[j], 0, path))
    {
      var tokens := CompileNormalized(unique[k]);
      compiled := compiled + [tokens];
    }
    forall path ensures AnyTokens(compiled, path) <==> AnyPattern(patterns, path) {
      if AnyPattern(patterns, path) {
        var i :| 0 <= i < |patterns| && PatternMatches(patterns[i], path);
        assert normalized[i] in unique;
        var k :| 0 <= k < |unique| && unique[k] == normalized[i];
        assert TokensMatch(compiled[k], path);
      }
      if AnyTokens(compiled, path) {
        var k :| 0 <= k < |compiled| && TokensMatch(compiled[k], path);
        assert unique[k] in normalized;
        var i :| 0 <= i < |patterns| && normalized[i] == unique[k];
        assert PatternMatches(patterns[i], path);
      }
    }
  }

  method NewFilter(allow: Option<seq<string>>, ignore: seq<string>) returns (filter: RepositoryFilter)
    ensures forall path :: Included(filter, path) <==> Wanted(allow, ignore, path)
  {
    var ignored := CompilePatterns(ignore);
    if allow.Some? {
      var allowed := CompilePatterns(allow.value);
      filter := RepositoryFilter(Some(allowed), ignored);
    } else {
      filter := RepositoryFilter(None, ignored);
    }
  }

  method MatchesAny(compiled: seq<seq<Token>>, path: string) returns (r: bool)
    ensures r == AnyTokens(compiled, path)
  {
    for k := 0 to |compiled|
      invariant forall j :: 0 <= j < k ==> !TokensMatch(compiled[j], path)
    {
      var matched, _ := MatchTokens(compiled[k], path);
      if matched {
        return true;
      }
    }
    return false;
  }

  method Includes(filter: RepositoryFilter, path: string) returns (r: bool)
    ensures r == Included(filter, path)
  {
    var allowed := true;
    if filter.allow.Some? {
      allowed := MatchesAny(filter.allow.value, path);
    }
    var ignored := false;
    if allowed {
      ignored := MatchesAny(filter.ignore, path);
    }
    r := allowed && !ignored;
  }

  // ----- selecting from a tree

  ghost predicate Duplicated(paths: seq<string>) {
    exists path :: multiset(paths)[path] >= 2
  }

  ghost function Keep(filter: RepositoryFilter, paths: seq<string>): (r: seq<string>)
    ensures forall p :: p in r <==> p in paths && Included(filter, p)
  {
    if paths == [] then []
    else if Included(filter, paths[0]) then [paths[0]] + Keep(filter, paths[1..])
    else Keep(filter, paths[1..])
  }

  lemma {:induction false} KeepStrict(filter: RepositoryFilter, paths: seq<string>)
    requires StrictlySorted(paths)
    ensures StrictlySorted(Keep(filter, paths))
  {
    if paths != [] {
      KeepStrict(filter, paths[1..]);
      var rest := Keep(filter, paths[1..]);
      forall k | 0 <= k < |rest| ensures Leq(paths[0], rest[k]) && paths[0] != rest[k] {
        assert rest[k] in paths[1..];
      }
    }
  }

  lemma {:induction false} TwoPlaces(s: seq<string>, x: string) returns (i: nat, j: nat)
    requires multiset(s)[x] >= 2
    ensures i < j < |s| && s[i] == x && s[j] == x
  {
    assert s == [s[0]] + s[1..];
    if s[0] == x {
      assert x in multiset(s[1..]);
      var k :| 0 <= k < |s| - 1 && s[1..][k] == x;
      i, j := 0, k + 1;
    } else {
      i, j := TwoPlaces(s[1..], x);
      i, j := i + 1, j + 1;
    }
  }

  /** In a sorted list, repetition shows between neighbours. */
  lemma NeighboursRepeat(s: seq<string>)
    requires Sorted(Leq, s)
    ensures Duplicated(s) <==> exists k :: 0 < k < |s| && s[k - 1] == s[k]
    ensures !Duplicated(s) ==> StrictlySorted(s)
  {
    if Duplicated(s) {
      var x :| multiset(s)[x] >= 2;
      var i, j := TwoPlaces(s, x);
      if i + 1 < j {
        assert Leq(s[i], s[i + 1]) && Leq(s[i + 1], s[j]);
        LeqAntisymmetric(s[i], s[i + 1]);
      }
      assert s[i + 1 - 1] == s[i + 1];
    }
    forall i, j | 0 <= i < j < |s| && s[i] == s[j] ensures Duplicated(s) {
      Repeats(s, i, j);
    }
  }

  lemma Repeats(s: seq<string>, i: nat, j: nat)
    requires i < j < |s| && s[i] == s[j]
    ensures multiset(s)[s[i]] >= 2
  {
    assert s == s[..j] + s[j..];
    assert s[i] in multiset(s[..j]) && s[j] in multiset(s[j..]);
  }

  method HasEqualNeighbours(sorted: seq<string>) returns (r: bool)
    ensures r <==> exists k :: 0 < k < |sorted| && sorted[k - 1] == sorted[k]
  {
    var k := 1;
    while k < |sorted|
      invariant 1 <= k && forall j :: 0 < j < k && j < |sorted| ==> sorted[j - 1] != sorted[j]
    {
      if sorted[k - 1] == sorted[k] {
        return true;
      }
      k := k + 1;
    }
    return false;
  }

  lemma SortedTree(sorted: seq<string>, paths: seq<string>)
    requires Sorted(Leq, sorted) && multiset(sorted) == multiset(paths) && !Duplicated(sorted)
    ensures sorted == Canonical(paths)
  {
    NeighboursRepeat(sorted);
    SameElements(sorted, paths);
    CanonicalIsStrict(paths);
    StrictUnique(sorted, Canonical(paths));
  }

  /** Sorts a tree listing, or finds a path twice in it. */
  method SortTree(paths: seq<string>) returns (r: Option<seq<string>>)
    ensures r == if Duplicated(paths) then None else Some(Canonical(paths))
  {
    LeqIsOrder();
    var sorted := SortUnstable(Leq, paths);
    var repeated := HasEqualNeighbours(sorted);
    NeighboursRepeat(sorted);
    if repeated {
      return None;
    }
    SortedTree(sorted, paths);
    r := Some(sorted);
  }

  method KeepIncluded(filter: RepositoryFilter, paths: seq<string>) returns (selected: seq<string>)
    ensures selected == Keep(filter, paths)
  {
    selected := [];
    assert paths[0..] == paths;
    for k := 0 to |paths|
      invariant selected + Keep(filter, paths[k..]) == Keep(filter, paths)
    {
      var included := Includes(filter, paths[k]);
      assert paths[k..][1..] == paths[k + 1..];
      if included {
        selected := selected + [paths[k]];
      }
    }
    assert selected + [] == selected;
  }

  /** The sorted selection with its identity; a tree that repeats a path is refused
      even when the filter would have hidden it. */
  method Select(primitives: Primitives, filter: RepositoryFilter, paths: seq<string>)
    returns (r: Result<Selection, KeyError>)
    ensures Duplicated(paths) ==> r == Failure(Malformed)
    ensures !Duplicated(paths) ==>
              var chosen := Keep(filter, Canonical(paths));
              match DeriveSelection(primitives, chosen)
              case Failure(error) => r == Failure(error)
              case Success(id) => r == Success(Selection(chosen, id))
  {
    var sorted := SortTree(paths);
    if sorted.None? {
      return Failure(Malformed);
    }
    var selected := KeepIncluded(filter, sorted.value);
    var id := DeriveSelectionId(primitives, selected);
    r := if id.Success? then Success(Selection(selected, id.value)) else Failure(id.error);
  }

  /** What two requests select depends on the patterns only through the set of wanted
      paths, and on the tree listing only through the set of its paths. */
  lemma SelectionIsCanonical(f: RepositoryFilter, g: RepositoryFilter, s: seq<string>, t: seq<string>)
    requires forall p :: p in s && Included(f, p) <==> p in t && Included(g, p)
    ensures Keep(f, Canonical(s)) == Keep(g, Canonical(t))
  {
    CanonicalIsStrict(s);
    CanonicalIsStrict(t);
    KeepStrict(f, Canonical(s));
    KeepStrict(g, Canonical(t));
    StrictUnique(Keep(f, Canonical(s)), Keep(g, Canonical(t)));
  }
}
