/** The one relative target a snapshot link may have. */
module LinkTarget {
  import opened Wrappers

  datatype Component = Normal(name: string) | ParentDir | CurDir | RootDir | Prefix

  type Path = seq<Component>

  function Parent(path: Path): Option<Path> {
    if path == [] || path[|path| - 1].RootDir? || path[|path| - 1].Prefix? then None
    else Some(path[..|path| - 1])
  }

  /** The names of a path of normal components only. */
  function Names(path: Path): (r: Option<seq<string>>)
    ensures r.Some? <==> forall k :: 0 <= k < |path| ==> path[k].Normal?
  {
    if forall k :: 0 <= k < |path| ==> path[k].Normal?
    then Some(seq(|path|, k requires 0 <= k < |path| => path[k].name))
    else None
  }

  /** How many leading names two paths share. */
  function Common(a: seq<string>, b: seq<string>): (n: nat)
    ensures n <= |a| && n <= |b| && a[..n] == b[..n]
    ensures n < |a| && n < |b| ==> a[n] != b[n]
  {
    if a != [] && b != [] && a[0] == b[0] then 1 + Common(a[1..], b[1..]) else 0
  }

  function Ups(n: nat): (r: Path)
    ensures |r| == n && forall k :: 0 <= k < n ==> r[k] == ParentDir
  {
    seq(n, _ => ParentDir)
  }

  function Downs(names: seq<string>): (r: Path)
    ensures |r| == |names| && forall k :: 0 <= k < |names| ==> r[k] == Normal(names[k])
  {
    seq(|names|, k requires 0 <= k < |names| => Normal(names[k]))
  }

  function Relative(from: seq<string>, to: seq<string>): Path {
    Ups(|from| - Common(from, to)) + Downs(to[Common(from, to)..])
  }

  /** Following a target, component by component, from a directory under the root. */
  function Walk(directory: seq<string>, target: Path): Option<seq<string>>
    decreases |target|
  {
    if target == [] then Some(directory)
    else match target[0]
      case Normal(name) => Walk(directory + [name], target[1..])
      case ParentDir => if directory == [] then None else Walk(directory[..|directory| - 1], target[1..])
      case _ => None
  }

  /** There is a target only between normal paths, and none from a directory to itself. */
  function ExpectedTarget(source: Path, destination: Path): Option<Path> {
    var parent :- Parent(source);
    var from :- Names(parent);
    var to :- Names(destination);
    if from == to then None else Some(Relative(from, to))
  }

  method CanonicalRelativeLinkTarget(source: Path, destination: Path) returns (r: Option<Path>)
    ensures r == ExpectedTarget(source, destination)
  {
    var sourceParent := Parent(source);
    if sourceParent.None? {
      return None;
    }
    var sourceNames := Names(sourceParent.value);
    if sourceNames.None? {
      return None;
    }
    var destinationNames := Names(destination);
    if destinationNames.None? {
      return None;
    }
    var from, to := sourceNames.value, destinationNames.value;
    var common := Common(from, to);
    var relative: Path := [];
    for k := common to |from|
      invariant relative == Ups(k - common)
    {
      relative := relative + [ParentDir];
    }
    for k := common to |to|
      invariant relative == Ups(|from| - common) + Downs(to[common..k])
    {
      assert to[common..k + 1] == to[common..k] + [to[k]];
      relative := relative + [Normal(to[k])];
    }
    assert to[common..|to|] == to[common..];
    if relative == [] {
      assert from == from[..common] && to == to[..common];
      return None;
    }
    r := Some(relative);
  }

  // ----- the target leads to the destination

  lemma {:induction false} WalkUps(directory: seq<string>, n: nat, rest: Path)
    requires n <= |directory|
    ensures Walk(directory, Ups(n) + rest) == Walk(directory[..|directory| - n], rest)
    decreases n
  {
    if n == 0 {
      assert Ups(0) + rest == rest && directory[..|directory|] == directory;
    } else {
      assert (Ups(n) + rest)[1..] == Ups(n - 1) + rest;
      var up := directory[..|directory| - 1];
      WalkUps(up, n - 1, rest);
      assert up[..|up| - (n - 1)] == directory[..|directory| - n];
    }
  }

  lemma {:induction false} WalkDowns(directory: seq<string>, names: seq<string>)
    ensures Walk(directory, Downs(names)) == Some(directory + names)
    decreases |names|
  {
    if names == [] {
      assert directory + names == directory;
    } else {
      assert Downs(names)[1..] == Downs(names[1..]);
      WalkDowns(directory + [names[0]], names[1..]);
      assert directory + [names[0]] + names[1..] == directory + names;
    }
  }

  /** The walk never leaves the root and ends at the destination. */
  lemma RelativeLeadsThere(from: seq<string>, to: seq<string>)
    ensures Walk(from, Relative(from, to)) == Some(to)
  {
    var common := Common(from, to);
    WalkUps(from, |from| - common, Downs(to[common..]));
    WalkDowns(from[..common], to[common..]);
    assert from[..common] + to[common..] == to;
  }

  // ----- and is the only shortest one

  lemma CommonExact(a: seq<string>, b: seq<string>, n: nat)
    requires n <= |a| && n <= |b| && a[..n] == b[..n]
    requires n < |a| && n < |b| ==> a[n] != b[n]
    ensures Common(a, b) == n
  {
    var m := Common(a, b);
    forall k | 0 <= k < n ensures a[k] == b[k] {
      assert a[..n][k] == b[..n][k];
    }
    forall k | 0 <= k < m ensures a[k] == b[k] {
      assert a[..m][k] == b[..m][k];
    }
  }

  /** One step changes the distance by one, and only the canonical step shortens it. */
  lemma StepUp(from: seq<string>, to: seq<string>)
    requires from != []
    ensures var next := Relative(from[..|from| - 1], to);
            || |next| == |Relative(from, to)| + 1
            || Relative(from, to) == [ParentDir] + next
  {
    var common, up := Common(from, to), from[..|from| - 1];
    if common == |from| {
      CommonExact(up, to, common - 1);
    } else {
      assert up[..common] == from[..common];
      CommonExact(up, to, common);
      assert Ups(|from| - common) == [ParentDir] + Ups(|up| - common);
      assert Relative(from, to) == [ParentDir] + Relative(up, to);
    }
  }

  lemma RelativeBelow(to: seq<string>, n: nat)
    requires n <= |to|
    ensures Relative(to[..n], to) == Downs(to[n..])
  {
    CommonExact(to[..n], to, n);
  }

  lemma StepAlong(from: seq<string>, to: seq<string>)
    requires Common(from, to) == |from| < |to|
    ensures Relative(from, to) == [Normal(to[|from|])] + Relative(from + [to[|from|]], to)
  {
    var n := |from|;
    RelativeBelow(to, n);
    RelativeBelow(to, n + 1);
    TakeDrop(to, n);
    assert from == to[..n];
  }

  lemma TakeDrop(to: seq<string>, n: nat)
    requires n < |to|
    ensures to[..n + 1] == to[..n] + [to[n]]
    ensures Downs(to[n..]) == [Normal(to[n])] + Downs(to[n + 1..])
  {
  }

  lemma StepDown(from: seq<string>, to: seq<string>, name: string)
    ensures var next := Relative(from + [name], to);
            || |next| == |Relative(from, to)| + 1
            || Relative(from, to) == [Normal(name)] + next
  {
    var common, down := Common(from, to), from + [name];
    if common == |from| && common < |to| && to[common] == name {
      StepAlong(from, to);
    } else {
      assert down[..common] == from[..common];
      CommonExact(down, to, common);
    }
  }

  /** Among all targets that lead from `from` to `to`, whatever their shape, the
      canonical one is the only shortest. */
  lemma {:induction false} RelativeIsShortest(from: seq<string>, to: seq<string>, target: Path)
    requires Walk(from, target) == Some(to)
    ensures |Relative(from, to)| <= |target|
    ensures |Relative(from, to)| == |target| ==> target == Relative(from, to)
    decreases |target|
  {
    if target == [] {
      CommonExact(from, to, |from|);
    } else {
      assert target == [target[0]] + target[1..];
      match target[0] {
        case Normal(name) =>
          RelativeIsShortest(from + [name], to, target[1..]);
          StepDown(from, to, name);
        case ParentDir =>
          RelativeIsShortest(from[..|from| - 1], to, target[1..]);
          StepUp(from, to);
        case _ =>
      }
    }
  }

  /** No shorter target leads from `from` to `to`. */
  ghost predicate ShortestWalk(from: seq<string>, to: seq<string>, target: Path) {
    && Walk(from, target) == Some(to)
    && forall other :: Walk(from, other) == Some(to) ==> |target| <= |other|
  }

  /** Between normal paths the expected target is the shortest way, and there is none
      only for a source without parent or a destination that is its parent. */
  lemma TargetExact(source: seq<string>, destination: seq<string>, target: Path)
    ensures ExpectedTarget(Downs(source), Downs(destination)) == Some(target) <==>
            && source != [] && source[..|source| - 1] != destination
            && ShortestWalk(source[..|source| - 1], destination, target)
  {
    if source != [] {
      var from := source[..|source| - 1];
      assert Names(Parent(Downs(source)).value).value == from;
      assert Names(Downs(destination)).value == destination;
      RelativeLeadsThere(from, destination);
      forall other | Walk(from, other) == Some(destination)
        ensures |Relative(from, destination)| <= |other|
        ensures |Relative(from, destination)| == |other| ==> other == Relative(from, destination)
      {
        RelativeIsShortest(from, destination, other);
      }
    }
  }

  /** Outside normal paths there is no target: not from a root, a prefix or nothing, and
      not by way of any component that is not a name. */
  lemma NoTargetElsewhere(source: Path, destination: Path)
    ensures source == [] || source[|source| - 1].RootDir? || source[|source| - 1].Prefix? ==>
              ExpectedTarget(source, destination) == None
    ensures (exists k :: 0 <= k < |source| - 1 && !source[k].Normal?) ==> ExpectedTarget(source, destination) == None
    ensures (exists k :: 0 <= k < |destination| && !destination[k].Normal?) ==>
              ExpectedTarget(source, destination) == None
  {
    if source != [] {
      var parent := source[..|source| - 1];
      forall k | 0 <= k < |source| - 1 && !source[k].Normal? ensures !parent[k].Normal? {}
    }
  }
}
