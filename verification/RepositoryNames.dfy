/** Repository identifiers and the cache directory each one is given. */
module RepositoryNames {
  import opened Text
  import opened Wrappers

  datatype Kind = Model | Dataset | Space

  datatype IdError = Empty | ContainsNul | TooLong | Malformed | InvalidCharacter

  const MAX_REPOSITORY_ID_LENGTH: nat := 96

  function CacheDirectory(kind: Kind): string {
    match kind
    case Model => "models"
    case Dataset => "datasets"
    case Space => "spaces"
  }

  // ----- identifiers

  /** The first place where `ch` stands twice in a row, at or after `from`. */
  function FindDouble(s: string, ch: char, from: nat): (r: Option<nat>)
    ensures r.Some? ==> from <= r.value && r.value + 1 < |s| && s[r.value] == s[r.value + 1] == ch
    decreases |s| - from
  {
    if from + 1 >= |s| then None
    else if s[from] == ch && s[from + 1] == ch then Some(from)
    else FindDouble(s, ch, from + 1)
  }

  predicate HasGitSuffix(value: string) {
    && |value| >= 4
    && value[|value| - 4] == '.'
    && LowerCase(value[|value| - 3]) == 'g'
    && LowerCase(value[|value| - 2]) == 'i'
    && LowerCase(value[|value| - 1]) == 't'
  }

  predicate IsNameCharacter(c: char) {
    'a' <= c <= 'z' || 'A' <= c <= 'Z' || '0' <= c <= '9' || c in "-_."
  }

  function ValidateComponent(component: string): Result<(), IdError> {
    if component == [] || component[0] in "-." || component[|component| - 1] in "-." then Failure(Malformed)
    else if exists k :: 0 <= k < |component| && !IsNameCharacter(component[k]) then Failure(InvalidCharacter)
    else Success(())
  }

  function ValidateRepositoryId(value: string): Result<(), IdError> {
    if value == [] then Failure(Empty)
    else if '\0' in value then Failure(ContainsNul)
    else if |Utf8(value)| > MAX_REPOSITORY_ID_LENGTH then Failure(TooLong)
    else if FindDouble(value, '-', 0).Some? || FindDouble(value, '.', 0).Some? || HasGitSuffix(value) then
      Failure(Malformed)
    else
      var slash := Find(value, '/', 0);
      if slash.None? then ValidateComponent(value)
      else if Find(value, '/', slash.value + 1).Some? then Failure(Malformed)
      else
        var _ :- ValidateComponent(value[..slash.value]);
        ValidateComponent(value[slash.value + 1..])
  }

  function Namespace(id: string): Option<string> {
    var slash := Find(id, '/', 0);
    if slash.Some? then Some(id[..slash.value]) else None
  }

  function Name(id: string): string {
    var slash := Find(id, '/', 0);
    if slash.Some? then id[slash.value + 1..] else id
  }

  // ----- directory names

  function ReplaceSlashes(s: string): string {
    if s == [] then []
    else (if s[0] == '/' then "--" else [s[0]]) + ReplaceSlashes(s[1..])
  }

  function DirectoryName(kind: Kind, id: string): string {
    CacheDirectory(kind) + "--" + ReplaceSlashes(id)
  }

  function KindOf(directory: string): Option<Kind> {
    if directory == "models" then Some(Model)
    else if directory == "datasets" then Some(Dataset)
    else if directory == "spaces" then Some(Space)
    else None
  }

  /** Reads a directory name back, cutting at each doubled hyphen from the left. */
  function ReadDirectoryName(directory: string): Option<(Kind, Option<string>, string)> {
    var first :- FindDouble(directory, '-', 0);
    var kind :- KindOf(directory[..first]);
    var rest := directory[first + 2..];
    var second := FindDouble(rest, '-', 0);
    if second.Some? then Some((kind, Some(rest[..second.value]), rest[second.value + 2..]))
    else Some((kind, None, rest))
  }

  /** In `left--right` the first doubled hyphen is the one in the middle. */
  lemma {:induction false} FirstDouble(left: string, right: string, from: nat)
    requires from <= |left| && FindDouble(left, '-', from).None?
    requires left != [] && left[|left| - 1] != '-'
    ensures FindDouble(left + "--" + right, '-', from) == Some(|left|)
    decreases |left| - from
  {
    if from < |left| {
      FirstDouble(left, right, from + 1);
    }
  }

  lemma {:induction false} NoDoubleInPart(s: string, from: nat, to: nat, k: nat)
    requires from <= to <= |s| && FindDouble(s, '-', k).None? && k <= from
    ensures FindDouble(s[from..to], '-', 0).None?
    decreases from - k
  {
    if k < from {
      NoDoubleInPart(s, from, to, k + 1);
    } else {
      NoDoubleFrom(s, from, to, 0);
    }
  }

  lemma {:induction false} NoDoubleFrom(s: string, from: nat, to: nat, j: nat)
    requires from <= to <= |s| && j <= to - from && FindDouble(s, '-', from + j).None?
    ensures FindDouble(s[from..to], '-', j).None?
    decreases |s| - from - j
  {
    if j + 1 < to - from {
      NoDoubleFrom(s, from, to, j + 1);
    }
  }

  lemma {:induction false} NoSlashKept(s: string)
    requires forall k :: 0 <= k < |s| ==> s[k] != '/'
    ensures ReplaceSlashes(s) == s
  {
    if s != [] {
      NoSlashKept(s[1..]);
      assert s == [s[0]] + s[1..];
    }
  }

  lemma {:induction false} ReplaceConcat(a: string, b: string)
    ensures ReplaceSlashes(a + b) == ReplaceSlashes(a) + ReplaceSlashes(b)
  {
    if a == [] {
      assert a + b == b;
    } else {
      assert (a + b)[1..] == a[1..] + b;
      ReplaceConcat(a[1..], b);
    }
  }

  lemma KindReads(kind: Kind)
    ensures FindDouble(CacheDirectory(kind), '-', 0).None? && KindOf(CacheDirectory(kind)) == Some(kind)
    ensures CacheDirectory(kind)[|CacheDirectory(kind)| - 1] == 's'
  {
    match kind {
      case Model => NoHyphens("models", 0);
      case Dataset => NoHyphens("datasets", 0);
      case Space => NoHyphens("spaces", 0);
    }
  }

  lemma {:induction false} NoHyphens(s: string, from: nat)
    requires forall k :: 0 <= k < |s| ==> s[k] != '-'
    ensures FindDouble(s, '-', from).None?
    decreases |s| - from
  {
    if from + 1 < |s| {
      NoHyphens(s, from + 1);
    }
  }

  // ----- the identifiers that are valid

  /** ASCII letters and digits, and three marks. */
  lemma NameCharacterExact(c: char)
    ensures IsNameCharacter(c) <==>
            var code := c as int;
            48 <= code <= 57 || 65 <= code <= 90 || 97 <= code <= 122 || code in {45, 46, 95}
  {
  }

  /** A Git suffix in any case, and nothing shorter or otherwise. */
  lemma GitSuffixExact(stem: string, suffix: string)
    requires |suffix| == 4
    ensures HasGitSuffix(stem + suffix) <==>
            suffix[0] == '.' && suffix[1] in "gG" && suffix[2] in "iI" && suffix[3] in "tT"
    ensures |stem| < 4 ==> !HasGitSuffix(stem)
  {
    var value := stem + suffix;
    assert value[|value| - 4] == suffix[0] && value[|value| - 3] == suffix[1];
    assert value[|value| - 2] == suffix[2] && value[|value| - 1] == suffix[3];
  }

  predicate AtEdge(id: string, k: nat)
    requires k < |id|
  {
    k == 0 || k + 1 == |id| || id[k - 1] == '/' || id[k + 1] == '/'
  }

  /** The rules read off the text as a whole: one or two components of name characters,
      none empty or with a hyphen or dot at its edge, and no doubled hyphen or dot. */
  ghost predicate IsRepositoryId(id: string) {
    && 0 < |Utf8(id)| <= MAX_REPOSITORY_ID_LENGTH && !HasGitSuffix(id)
    && (forall k :: 0 <= k < |id| ==> id[k] == '/' || IsNameCharacter(id[k]))
    && (forall j, k :: 0 <= j < k < |id| && id[j] == '/' ==> id[k] != '/')
    && (forall k :: 0 <= k < |id| && AtEdge(id, k) ==> id[k] !in "-./")
    && (forall k :: 0 < k < |id| && id[k] in "-." ==> id[k - 1] != id[k])
  }

  lemma {:induction false} DoubleIsFound(s: string, ch: char, from: nat, k: nat)
    requires FindDouble(s, ch, from).None? && from < k < |s|
    ensures s[k - 1] != ch || s[k] != ch
    decreases |s| - from
  {
    if from + 1 < k {
      DoubleIsFound(s, ch, from + 1, k);
    }
  }

  predicate IsComponent(id: string, from: nat, to: nat)
    requires to <= |id|
  {
    && from < to && id[from] !in "-." && id[to - 1] !in "-."
    && forall k :: from <= k < to ==> IsNameCharacter(id[k])
  }

  lemma ComponentExact(id: string, from: nat, to: nat)
    requires from <= to <= |id|
    ensures ValidateComponent(id[from..to]).Success? <==> IsComponent(id, from, to)
  {
    var component := id[from..to];
    if from < to {
      assert component[0] == id[from] && component[|component| - 1] == id[to - 1];
      if ValidateComponent(component).Success? {
        forall k | from <= k < to ensures IsNameCharacter(id[k]) {
          assert component[k - from] == id[k];
        }
      }
    }
  }

  /** The components are what the slash, if there is one, leaves on either side. */
  ghost predicate HasComponents(id: string) {
    var slash := Find(id, '/', 0);
    if slash.None? then IsComponent(id, 0, |id|)
    else
      && Find(id, '/', slash.value + 1).None?
      && IsComponent(id, 0, slash.value) && IsComponent(id, slash.value + 1, |id|)
  }

  lemma ValidHasComponents(id: string)
    ensures ValidateRepositoryId(id).Success? <==>
            && 0 < |Utf8(id)| <= MAX_REPOSITORY_ID_LENGTH && !HasGitSuffix(id)
            && FindDouble(id, '-', 0).None? && FindDouble(id, '.', 0).None? && HasComponents(id)
  {
    var slash := Find(id, '/', 0);
    assert id[0..|id|] == id;
    ComponentExact(id, 0, |id|);
    if slash.Some? {
      assert id[..slash.value] == id[0..slash.value] && id[slash.value + 1..] == id[slash.value + 1..|id|];
      ComponentExact(id, 0, slash.value);
      ComponentExact(id, slash.value + 1, |id|);
    }
  }

  lemma ComponentsFollowRules(id: string)
    requires HasComponents(id)
    ensures forall k :: 0 <= k < |id| ==> id[k] == '/' || IsNameCharacter(id[k])
    ensures forall j, k :: 0 <= j < k < |id| && id[j] == '/' ==> id[k] != '/'
    ensures forall k :: 0 <= k < |id| && AtEdge(id, k) ==> id[k] !in "-./"
  {
    assert !IsNameCharacter('/');
  }

  lemma RulesMakeComponents(id: string)
    requires id != [] && forall k :: 0 <= k < |id| ==> id[k] == '/' || IsNameCharacter(id[k])
    requires forall j, k :: 0 <= j < k < |id| && id[j] == '/' ==> id[k] != '/'
    requires forall k :: 0 <= k < |id| && AtEdge(id, k) ==> id[k] !in "-./"
    ensures HasComponents(id)
  {
    var slash := Find(id, '/', 0);
    assert AtEdge(id, 0) && AtEdge(id, |id| - 1);
    if slash.None? {
      forall k | 0 <= k < |id| ensures id[k] != '/' { FindIsFirst(id, '/', 0, k); }
    } else {
      forall k | 0 <= k < slash.value ensures id[k] != '/' { FindIsFirst(id, '/', 0, k); }
      assert AtEdge(id, slash.value - 1) && AtEdge(id, slash.value + 1);
    }
  }

  lemma NothingDoubled(s: string, ch: char)
    requires forall k :: 0 < k < |s| && s[k] == ch ==> s[k - 1] != ch
    ensures FindDouble(s, ch, 0).None?
  {
  }

  /** Validation accepts exactly those identifiers. */
  lemma ValidIdExact(id: string)
    ensures ValidateRepositoryId(id).Success? <==> IsRepositoryId(id)
  {
    ValidHasComponents(id);
    if ValidateRepositoryId(id).Success? {
      ComponentsFollowRules(id);
      forall k | 0 < k < |id| && id[k] in "-." ensures id[k - 1] != id[k] {
        DoubleIsFound(id, id[k], 0, k);
      }
    }
    if IsRepositoryId(id) {
      RulesMakeComponents(id);
      NothingDoubled(id, '-');
      NothingDoubled(id, '.');
    }
  }

  /** What validity says about an identifier's parts. */
  lemma ValidParts(id: string)
    requires ValidateRepositoryId(id).Success?
    ensures FindDouble(id, '-', 0).None?
    ensures var slash := Find(id, '/', 0);
            slash.Some? ==>
              && slash.value > 0 && id[slash.value - 1] != '-'
              && Find(id, '/', slash.value + 1).None?
  {
    var slash := Find(id, '/', 0);
    if slash.Some? {
      assert ValidateComponent(id[..slash.value]).Success?;
      assert id[..slash.value][|id[..slash.value]| - 1] == id[slash.value - 1];
    }
  }

  lemma BodyOfName(id: string)
    requires Find(id, '/', 0).None?
    ensures ReplaceSlashes(id) == id
  {
    forall k | 0 <= k < |id| ensures id[k] != '/' { FindIsFirst(id, '/', 0, k); }
    NoSlashKept(id);
  }

  lemma BodyOfPair(id: string, slash: nat)
    requires Find(id, '/', 0) == Some(slash) && Find(id, '/', slash + 1).None?
    ensures ReplaceSlashes(id) == id[..slash] + "--" + id[slash + 1..]
  {
    forall k | 0 <= k < slash ensures id[k] != '/' { FindIsFirst(id, '/', 0, k); }
    forall k | slash < k < |id| ensures id[k] != '/' { FindIsFirst(id, '/', slash + 1, k); }
    BodyAround(id, slash);
  }

  lemma BodyAround(id: string, slash: nat)
    requires slash < |id| && id[slash] == '/' && forall k :: 0 <= k < |id| && k != slash ==> id[k] != '/'
    ensures ReplaceSlashes(id) == id[..slash] + "--" + id[slash + 1..]
  {
    var left, right := id[..slash], id[slash + 1..];
    assert id == left + ("/" + right);
    NoSlashKept(left);
    NoSlashKept(right);
    ReplaceAround(left, right);
  }

  lemma ReplaceAround(left: string, right: string)
    ensures ReplaceSlashes(left + ("/" + right)) == ReplaceSlashes(left) + "--" + ReplaceSlashes(right)
  {
    ReplaceConcat(left, "/" + right);
    assert ("/" + right)[1..] == right;
  }

  /** Cutting `left--right` at its first doubled hyphen. */
  lemma CutDouble(left: string, right: string)
    requires left != [] && FindDouble(left, '-', 0).None? && left[|left| - 1] != '-'
    ensures var whole := left + "--" + right;
            && FindDouble(whole, '-', 0) == Some(|left|)
            && whole[..|left|] == left && whole[|left| + 2..] == right
  {
    FirstDouble(left, right, 0);
  }

  /** The directory name of a valid identifier gives back its kind, namespace and name. */
  lemma DirectoryNameReads(kind: Kind, id: string)
    requires ValidateRepositoryId(id).Success?
    ensures ReadDirectoryName(DirectoryName(kind, id)) == Some((kind, Namespace(id), Name(id)))
  {
    ValidParts(id);
    KindReads(kind);
    CutDouble(CacheDirectory(kind), ReplaceSlashes(id));
    var slash := Find(id, '/', 0);
    if slash.None? {
      BodyOfName(id);
    } else {
      BodyOfPair(id, slash.value);
      NoDoubleInPart(id, 0, slash.value, 0);
      assert id[0..slash.value] == id[..slash.value];
      CutDouble(id[..slash.value], id[slash.value + 1..]);
    }
  }

  /** The name other tools look for: the kind's word, the namespace if there is one, and
      the name, with two hyphens between. */
  lemma DirectoryNameSpelled(kind: Kind, id: string)
    requires ValidateRepositoryId(id).Success?
    ensures var word := if kind == Model then "models" else if kind == Dataset then "datasets" else "spaces";
            var slash := Find(id, '/', 0);
            DirectoryName(kind, id) ==
            if slash.None? then word + "--" + id
            else word + "--" + (id[..slash.value] + "--" + id[slash.value + 1..])
  {
    ValidParts(id);
    var slash := Find(id, '/', 0);
    if slash.None? {
      BodyOfName(id);
    } else {
      BodyOfPair(id, slash.value);
    }
  }

  /** Why an identifier is refused. */
  lemma WhyInvalid(id: string)
    ensures ValidateRepositoryId(id) == Failure(Empty) <==> id == []
    ensures ValidateRepositoryId(id) == Failure(ContainsNul) <==> '\0' in id
    ensures ValidateRepositoryId(id) == Failure(TooLong) <==>
            id != [] && '\0' !in id && |Utf8(id)| > MAX_REPOSITORY_ID_LENGTH
    ensures ValidateRepositoryId(id) == Failure(InvalidCharacter) ==>
              exists k :: 0 <= k < |id| && id[k] != '/' && !IsNameCharacter(id[k])
  {
    if forall k :: 0 <= k < |id| ==> id[k] == '/' || IsNameCharacter(id[k]) {
      CharactersAreValid(id);
    }
  }

  lemma CharactersAreValid(id: string)
    requires forall k :: 0 <= k < |id| ==> id[k] == '/' || IsNameCharacter(id[k])
    ensures ValidateRepositoryId(id) != Failure(InvalidCharacter)
  {
    var slash := Find(id, '/', 0);
    if slash.None? {
      forall k | 0 <= k < |id| ensures id[k] != '/' { FindIsFirst(id, '/', 0, k); }
      NamesAreValid(id);
    } else {
      BeforeSlash(id, slash.value);
      if Find(id, '/', slash.value + 1).None? {
        AfterSlash(id, slash.value);
      }
    }
  }

  lemma BeforeSlash(id: string, slash: nat)
    requires Find(id, '/', 0) == Some(slash)
    requires forall k :: 0 <= k < |id| ==> id[k] == '/' || IsNameCharacter(id[k])
    ensures ValidateComponent(id[..slash]) != Failure(InvalidCharacter)
  {
    var part := id[..slash];
    forall k | 0 <= k < |part| ensures IsNameCharacter(part[k]) { FindIsFirst(id, '/', 0, k); }
    NamesAreValid(part);
  }

  lemma AfterSlash(id: string, slash: nat)
    requires slash < |id| && Find(id, '/', slash + 1).None?
    requires forall k :: 0 <= k < |id| ==> id[k] == '/' || IsNameCharacter(id[k])
    ensures ValidateComponent(id[slash + 1..]) != Failure(InvalidCharacter)
  {
    var part := id[slash + 1..];
    forall k | 0 <= k < |part| ensures IsNameCharacter(part[k]) {
      FindIsFirst(id, '/', slash + 1, slash + 1 + k);
    }
    NamesAreValid(part);
  }

  lemma NamesAreValid(part: string)
    requires forall k :: 0 <= k < |part| ==> IsNameCharacter(part[k])
    ensures ValidateComponent(part) != Failure(InvalidCharacter)
  {
  }

  /** So no two valid repositories share a directory. */
  lemma DirectoryNameInjective(k1: Kind, id1: string, k2: Kind, id2: string)
    requires ValidateRepositoryId(id1).Success? && ValidateRepositoryId(id2).Success?
    ensures DirectoryName(k1, id1) == DirectoryName(k2, id2) <==> k1 == k2 && id1 == id2
  {
    DirectoryNameReads(k1, id1);
    DirectoryNameReads(k2, id2);
    Recombine(id1);
    Recombine(id2);
  }

  lemma Recombine(id: string)
    ensures id == match Namespace(id) case None => Name(id) case Some(space) => space + "/" + Name(id)
  {
  }
}
