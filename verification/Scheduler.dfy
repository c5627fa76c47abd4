/** The bounded scheduler of concurrent transfers.

    A job is represented by the outcome it will have once it has run: nothing else
    about it is visible to the scheduler.  Completion order and cancellation from
    outside are arbitrary.  What a run did is read off the journal that the token and
    the executor keep: the scheduler itself writes nothing to it. */
module Scheduler {
  import opened Environment
  import opened Sorting
  import opened Transfer
  import opened Wrappers

  type Jobs<T> = seq<Result<T, OperationError>>

  /** The set of active jobs.  It runs them whenever it is waited for, and hands out
      any one that has finished. */
  class Executor<T> {
    const jobs: Jobs<T>
    const token: CancellationToken
    ghost const past: seq<Event>
    var active: set<nat>

    constructor (jobs: Jobs<T>, token: CancellationToken)
      ensures Valid() && this.jobs == jobs && this.token == token && past == token.journal
      ensures active == {} && Log() == []
    {
      this.jobs, this.token, past, active := jobs, token, token.journal, {};
    }

    ghost predicate Valid()
      reads this, token
    {
      past <= token.journal && forall i :: i in active ==> i < |jobs|
    }

    /** The journal since the executor was made. */
    ghost function Log(): seq<Event>
      requires Valid()
      reads this, token
    {
      token.journal[|past|..]
    }

    method Push(index: nat)
      requires Valid() && index < |jobs| && index !in active
      modifies this`active, token`journal
      ensures Valid() && active == old(active) + {index} && Log() == old(Log()) + [Started(index)]
    {
      active := active + {index};
      token.journal := token.journal + [Started(index)];
    }

    /** Runs the active jobs until one has finished; others may cancel meanwhile. */
    method Next() returns (r: Option<(nat, Result<T, OperationError>)>)
      requires Valid()
      modifies this`active, token
      ensures Valid() && Later(token)
      ensures old(active) == {} ==> r.None? && active == {} && Log() == old(Log())
      ensures old(active) != {} ==>
                && r.Some? && r.value.0 in old(active) && r.value.1 == jobs[r.value.0]
                && active == old(active) - {r.value.0}
                && Log() == old(Log()) + [Waited] + [Finished(r.value.0)]
    {
      if active == {} {
        return None;
      }
      token.journal := token.journal + [Waited];
      token.Pass();
      var index :| index in active;
      active := active - {index};
      token.journal := token.journal + [Finished(index)];
      r := Some((index, jobs[index]));
    }

    /** A look at the token, as the log shows it. */
    method Look() returns (cancelled: bool)
      requires Valid()
      modifies token
      ensures Valid() && Later(token) && cancelled == token.cancelled
      ensures Log() == old(Log()) + [Looked(cancelled)]
    {
      cancelled := token.IsCancelled();
    }
  }

  /** A token never goes back. */
  twostate predicate Later(token: CancellationToken)
    reads token
  {
    old(token.cancelled) ==> token.cancelled
  }

  // ----- what a run may do

  ghost function Earlier(log: seq<Event>): seq<Event>
    requires log != []
  {
    log[..|log| - 1]
  }

  ghost function Last(log: seq<Event>): Event
    requires log != []
  {
    log[|log| - 1]
  }

  ghost function StartedCount(log: seq<Event>): nat {
    if log == [] then 0 else StartedCount(Earlier(log)) + if Last(log).Started? then 1 else 0
  }

  ghost function FinishedCount(log: seq<Event>): nat {
    if log == [] then 0 else FinishedCount(Earlier(log)) + if Last(log).Finished? then 1 else 0
  }

  /** A finished job failed, or a look at the token was answered yes. */
  ghost predicate Stopping<T>(jobs: Jobs<T>, log: seq<Event>) {
    log != [] && (Stopping(jobs, Earlier(log)) || Stops(jobs, Last(log)))
  }

  ghost predicate Stops<T>(jobs: Jobs<T>, event: Event) {
    event == Looked(true) || Fails(jobs, event)
  }

  ghost predicate Fails<T>(jobs: Jobs<T>, event: Event) {
    event.Finished? && event.index < |jobs| && jobs[event.index].Failure?
  }

  /** The last event is a look that found no cancellation. */
  ghost predicate JustCleared(log: seq<Event>) {
    log != [] && Last(log) == Looked(false)
  }

  /** The run has waited already, or has just found that it may begin to. */
  ghost predicate MayWait(log: seq<Event>) {
    Waited in log || JustCleared(log)
  }

  /** Jobs start in order, below the bound, and each right after a look that found no
      cancellation; so does the first wait; no look finds none once a job failed or one
      found some; a running job finishes once, and only while it is waited for. */
  ghost predicate Allowed<T>(concurrency: nat, jobs: Jobs<T>, log: seq<Event>, event: Event) {
    match event
    case Looked(answer) => answer || !Stopping(jobs, log)
    case Started(i) =>
      i == StartedCount(log) < |jobs| && JustCleared(log) && StartedCount(log) < FinishedCount(log) + concurrency
    case Waited => MayWait(log)
    case Finished(i) =>
      i < StartedCount(log) && Finished(i) !in log && log != [] && Last(log) == Waited
  }

  ghost predicate Run<T>(concurrency: nat, jobs: Jobs<T>, log: seq<Event>) {
    log != [] ==> Run(concurrency, jobs, Earlier(log)) && Allowed(concurrency, jobs, Earlier(log), Last(log))
  }

  lemma {:induction false} RunAt<T>(concurrency: nat, jobs: Jobs<T>, log: seq<Event>, k: nat)
    requires Run(concurrency, jobs, log) && k < |log|
    ensures Allowed(concurrency, jobs, log[..k], log[k])
  {
    if k < |log| - 1 {
      RunAt(concurrency, jobs, Earlier(log), k);
      assert Earlier(log)[..k] == log[..k];
    }
  }

  lemma {:induction false} StoppingAt<T>(jobs: Jobs<T>, log: seq<Event>, k: nat)
    requires k < |log| && Stops(jobs, log[k])
    ensures Stopping(jobs, log)
  {
    if k < |log| - 1 {
      StoppingAt(jobs, Earlier(log), k);
    }
  }

  lemma RunExtends<T>(concurrency: nat, jobs: Jobs<T>, log: seq<Event>, event: Event)
    requires Run(concurrency, jobs, log) && Allowed(concurrency, jobs, log, event)
    ensures Run(concurrency, jobs, log + [event])
    ensures StartedCount(log + [event]) == StartedCount(log) + if event.Started? then 1 else 0
    ensures FinishedCount(log + [event]) == FinishedCount(log) + if event.Finished? then 1 else 0
    ensures Stopping(jobs, log + [event]) <==> Stopping(jobs, log) || Stops(jobs, event)
  {
    assert Earlier(log + [event]) == log;
  }

  // ----- what every run keeps

  /** At no point of a run are more jobs active than the bound allows. */
  lemma {:induction false} ActiveBounded<T>(concurrency: nat, jobs: Jobs<T>, log: seq<Event>, k: nat)
    requires Run(concurrency, jobs, log) && k <= |log|
    ensures StartedCount(log[..k]) <= FinishedCount(log[..k]) + concurrency
    ensures StartedCount(log[..k]) <= |jobs|
  {
    if k > 0 {
      ActiveBounded(concurrency, jobs, log, k - 1);
      RunAt(concurrency, jobs, log, k - 1);
      assert Earlier(log[..k]) == log[..k - 1];
    }
  }

  /** Once a job has failed or a look found cancellation, no look finds none. */
  lemma NoClearLookAfterStop<T>(concurrency: nat, jobs: Jobs<T>, log: seq<Event>, i: nat, j: nat)
    requires Run(concurrency, jobs, log) && i < j < |log| && Stops(jobs, log[i])
    ensures log[j] != Looked(false)
  {
    RunAt(concurrency, jobs, log, j);
    assert log[..j][i] == log[i];
    StoppingAt(jobs, log[..j], i);
  }

  /** So no job starts either: it would have to right after such a look. */
  lemma NoStartAfterStop<T>(concurrency: nat, jobs: Jobs<T>, log: seq<Event>, i: nat, j: nat)
    requires Run(concurrency, jobs, log) && i < j < |log| && Stops(jobs, log[i])
    ensures !log[j].Started?
  {
    RunAt(concurrency, jobs, log, j);
    assert Last(log[..j]) == log[j - 1];
    if i < j - 1 {
      NoClearLookAfterStop(concurrency, jobs, log, i, j - 1);
    }
  }

  /** A run that found cancellation before it first waited never waits. */
  lemma {:induction false} NoWaitAfterEarlyStop<T>(concurrency: nat, jobs: Jobs<T>, log: seq<Event>, i: nat)
    requires Run(concurrency, jobs, log) && i < |log| && log[i] == Looked(true) && Waited !in log[..i]
    ensures Waited !in log
  {
    assert log[..i + 1] == log[..i] + [log[i]];
    if i + 1 < |log| {
      var earlier := Earlier(log);
      assert earlier[..i] == log[..i];
      NoWaitAfterEarlyStop(concurrency, jobs, earlier, i);
      if earlier[|earlier| - 1] == Looked(false) && i < |earlier| - 1 {
        NoClearLookAfterStop(concurrency, jobs, log, i, |earlier| - 1);
      }
      assert log == earlier + [Last(log)];
    } else {
      assert log == log[..i + 1];
    }
  }

  /** No job starts twice or finishes twice. */
  lemma {:induction false} EachOnce<T>(concurrency: nat, jobs: Jobs<T>, log: seq<Event>, i: nat, j: nat)
    requires Run(concurrency, jobs, log) && i < j < |log| && log[i] == log[j]
    ensures log[i].Looked? || log[i].Waited?
  {
    RunAt(concurrency, jobs, log, i);
    RunAt(concurrency, jobs, log, j);
    assert log[..j][i] == log[i];
    if log[i].Started? {
      assert Earlier(log[..i + 1]) == log[..i];
      StartedGrows(log, i + 1, j);
    }
  }

  lemma {:induction false} StartedGrows(log: seq<Event>, i: nat, j: nat)
    requires i <= j <= |log|
    ensures StartedCount(log[..i]) <= StartedCount(log[..j])
    decreases j
  {
    if i < j {
      assert Earlier(log[..j]) == log[..j - 1];
      StartedGrows(log, i, j - 1);
    }
  }

  /** As many jobs are active as the bound allows, or none is left to start. */
  ghost predicate Full<T>(concurrency: nat, jobs: Jobs<T>, log: seq<Event>) {
    StartedCount(log) == |jobs| || StartedCount(log) == FinishedCount(log) + concurrency
  }

  /** Whenever a run waits without having been stopped, it is full. */
  ghost predicate Busy<T>(concurrency: nat, jobs: Jobs<T>, log: seq<Event>) {
    log != [] ==>
      && Busy(concurrency, jobs, Earlier(log))
      && (Last(log).Waited? && !Stopping(jobs, Earlier(log)) ==> Full(concurrency, jobs, Earlier(log)))
  }

  lemma BusyExtends<T>(concurrency: nat, jobs: Jobs<T>, log: seq<Event>, event: Event)
    requires Busy(concurrency, jobs, log)
    requires event.Waited? && !Stopping(jobs, log) ==> Full(concurrency, jobs, log)
    ensures Busy(concurrency, jobs, log + [event])
  {
    assert Earlier(log + [event]) == log;
  }

  // ----- the result

  /** The failure of the first job to fail, in completion order. */
  ghost function FirstError<T>(jobs: Jobs<T>, log: seq<Event>): Option<OperationError> {
    if log == [] then None
    else
      var earlier := FirstError(jobs, Earlier(log));
      if earlier.None? && Fails(jobs, Last(log)) then Some(jobs[Last(log).index].error) else earlier
  }

  lemma FirstErrorExtends<T>(jobs: Jobs<T>, log: seq<Event>, event: Event)
    ensures FirstError(jobs, log + [event]) ==
            if FirstError(jobs, log).Some? then FirstError(jobs, log)
            else if Fails(jobs, event) then Some(jobs[event.index].error) else None
  {
    assert Earlier(log + [event]) == log;
  }

  /** It is the failure of a finished job, and no job that finished before it failed. */
  lemma {:induction false} FirstErrorIsFirst<T>(jobs: Jobs<T>, log: seq<Event>) returns (k: nat)
    requires FirstError(jobs, log).Some?
    ensures k < |log| && Fails(jobs, log[k]) && FirstError(jobs, log) == Some(jobs[log[k].index].error)
    ensures forall j :: 0 <= j < k ==> !Fails(jobs, log[j])
  {
    if FirstError(jobs, Earlier(log)).Some? {
      k := FirstErrorIsFirst(jobs, Earlier(log));
    } else {
      k := |log| - 1;
      NoneFailed(jobs, Earlier(log));
      assert forall j :: 0 <= j < k ==> Earlier(log)[j] == log[j];
    }
  }

  lemma {:induction false} NoneFailed<T>(jobs: Jobs<T>, log: seq<Event>)
    requires FirstError(jobs, log).None?
    ensures forall j :: 0 <= j < |log| ==> !Fails(jobs, log[j])
  {
    if log != [] {
      NoneFailed(jobs, Earlier(log));
    }
  }

  /** Without waiting there is no error, so a run that found cancellation before it first
      waited can only report that. */
  lemma {:induction false} NoErrorWithoutWait<T>(concurrency: nat, jobs: Jobs<T>, log: seq<Event>)
    requires Run(concurrency, jobs, log) && Waited !in log
    ensures FirstError(jobs, log) == None
  {
    if log != [] {
      assert log == Earlier(log) + [Last(log)];
      NoErrorWithoutWait(concurrency, jobs, Earlier(log));
    }
  }

  /** Every job that was started has finished. */
  ghost predicate AllFinished(log: seq<Event>) {
    forall i :: Started(i) in log ==> Finished(i) in log
  }

  /** The successes reported so far, each from a job that finished. */
  ghost predicate Reported<T>(jobs: Jobs<T>, log: seq<Event>, results: seq<(nat, T)>) {
    && (forall k :: 0 <= k < |results| ==>
          results[k].0 < |jobs| && jobs[results[k].0] == Success(results[k].1) && Finished(results[k].0) in log)
    && forall j, k :: 0 <= j < k < |results| ==> results[j].0 != results[k].0
  }

  lemma ReportedExtends<T>(jobs: Jobs<T>, log: seq<Event>, results: seq<(nat, T)>, event: Event)
    requires Reported(jobs, log, results)
    ensures Reported(jobs, log + [event], results)
  {
  }

  predicate IndexLeq<T>(a: (nat, T), b: (nat, T)) {
    a.0 <= b.0
  }

  /** Distinct indices below `n`, `n` of them and sorted, are `0 .. n - 1`. */
  lemma {:induction false} AtLeast<T>(s: seq<(nat, T)>, k: nat)
    requires k < |s| && forall i, j :: 0 <= i < j < |s| ==> s[i].0 < s[j].0
    ensures s[k].0 >= k
  {
    if k > 0 {
      AtLeast(s, k - 1);
    }
  }

  lemma {:induction false} AtMost<T>(s: seq<(nat, T)>, k: nat)
    requires k < |s| && (forall i, j :: 0 <= i < j < |s| ==> s[i].0 < s[j].0)
    requires forall i :: 0 <= i < |s| ==> s[i].0 < |s|
    ensures s[k].0 <= k
    decreases |s| - k
  {
    if k + 1 < |s| {
      AtMost(s, k + 1);
    }
  }

  /** Sorting complete results by index leaves job `i`'s value at place `i`. */
  method InJobOrder<T(!new)>(jobs: Jobs<T>, ghost log: seq<Event>, results: seq<(nat, T)>) returns (values: seq<T>)
    requires Reported(jobs, log, results) && |results| == |jobs|
    ensures |values| == |jobs|
    ensures forall i :: 0 <= i < |jobs| ==> jobs[i] == Success(values[i]) && Finished(i) in log
  {
    var sorted := SortUnstable(IndexLeq<T>, results);
    SameElements(sorted, results);
    SortKeepsDistinct(results, sorted);
    forall i | 0 <= i < |sorted|
      ensures sorted[i].0 == i && jobs[i] == Success(sorted[i].1) && Finished(i) in log
    {
      forall k | 0 <= k < |sorted| ensures sorted[k].0 < |jobs| {
        assert sorted[k] in results;
      }
      AtLeast(sorted, i);
      AtMost(sorted, i);
      assert sorted[i] in results;
    }
    values := seq(|sorted|, i requires 0 <= i < |sorted| => sorted[i].1);
  }

  lemma SortKeepsDistinct<T(!new)>(s: seq<(nat, T)>, t: seq<(nat, T)>)
    requires multiset(s) == multiset(t) && Sorted(IndexLeq, t)
    requires forall j, k :: 0 <= j < k < |s| ==> s[j].0 != s[k].0
    ensures forall j, k :: 0 <= j < k < |t| ==> t[j].0 < t[k].0
  {
    forall j, k | 0 <= j < k < |t| ensures t[j].0 < t[k].0 {
      assert IndexLeq(t[j], t[k]);
      if t[j].0 == t[k].0 {
        assert t == t[..k] + t[k..];
        assert t[j] in multiset(t[..k]) && t[k] in multiset(t[k..]);
        assert t[j] in multiset(s) && t[k] in multiset(s);
        var a :| 0 <= a < |s| && s[a] == t[j];
        var b :| 0 <= b < |s| && s[b] == t[k];
        assert a == b;
        CountOnce(s, a);
      }
    }
  }

  lemma CountOnce<T(!new)>(s: seq<(nat, T)>, a: nat)
    requires a < |s| && forall j, k :: 0 <= j < k < |s| ==> s[j].0 != s[k].0
    ensures multiset(s)[s[a]] == 1
  {
    assert s == s[..a] + [s[a]] + s[a + 1..];
    assert s[a] !in s[..a] && s[a] !in s[a + 1..];
  }

  // ----- the scheduler

  /** A started job is active until it has finished, and only then. */
  ghost predicate Accounts(log: seq<Event>, next: nat, active: set<nat>) {
    && (forall i :: i in active ==> i < next && Finished(i) !in log)
    && (forall i :: Started(i) in log ==> i in active || Finished(i) in log)
  }

  lemma AccountsExtends(log: seq<Event>, next: nat, active: set<nat>, event: Event)
    requires Accounts(log, next, active)
    requires event.Started? ==> event.index == next && Finished(next) !in log
    requires event.Finished? ==> event.index in active
    ensures match event
            case Started(i) => Accounts(log + [event], next + 1, active + {i})
            case Finished(i) => Accounts(log + [event], next, active - {i})
            case _ => Accounts(log + [event], next, active)
  {
    var longer := log + [event];
    assert forall other :: other in longer <==> other in log || other == event;
  }

  lemma {:induction false} NotFinishedYet<T>(concurrency: nat, jobs: Jobs<T>, log: seq<Event>, next: nat)
    requires Run(concurrency, jobs, log) && next >= StartedCount(log)
    ensures Finished(next) !in log
  {
    if log != [] {
      NotFinishedYet(concurrency, jobs, Earlier(log), next);
      assert log == Earlier(log) + [Last(log)];
    }
  }

  /** What the scheduler's own state says about the log. */
  ghost predicate Tracks<T>(
    concurrency: nat, jobs: Jobs<T>, log: seq<Event>, next: nat, active: set<nat>, cancelled: bool)
  {
    && Run(concurrency, jobs, log) && Busy(concurrency, jobs, log)
    && next == StartedCount(log) <= |jobs|
    && Accounts(log, next, active)
    && next == FinishedCount(log) + |active| && |active| <= concurrency
    && (Stopping(jobs, log) ==> cancelled)
  }

  lemma StartTracks<T>(
    concurrency: nat, jobs: Jobs<T>, log: seq<Event>, next: nat, active: set<nat>, cancelled: bool)
    requires Tracks(concurrency, jobs, log, next, active, cancelled) && JustCleared(log)
    requires next < |jobs| && |active| < concurrency
    ensures Tracks(concurrency, jobs, log + [Started(next)], next + 1, active + {next}, cancelled)
    ensures Stopping(jobs, log + [Started(next)]) <==> Stopping(jobs, log)
    ensures FirstError(jobs, log + [Started(next)]) == FirstError(jobs, log)
    ensures FinishedCount(log + [Started(next)]) == FinishedCount(log)
  {
    RunExtends(concurrency, jobs, log, Started(next));
    BusyExtends(concurrency, jobs, log, Started(next));
    FirstErrorExtends(jobs, log, Started(next));
    NotFinishedYet(concurrency, jobs, log, next);
    AccountsExtends(log, next, active, Started(next));
    assert next !in active;
  }

  lemma LookTracks<T>(
    concurrency: nat, jobs: Jobs<T>, log: seq<Event>, next: nat, active: set<nat>, answer: bool)
    requires Tracks(concurrency, jobs, log, next, active, answer)
    ensures Tracks(concurrency, jobs, log + [Looked(answer)], next, active, answer)
    ensures Stopping(jobs, log + [Looked(answer)]) <==> answer
    ensures FirstError(jobs, log + [Looked(answer)]) == FirstError(jobs, log)
    ensures FinishedCount(log + [Looked(answer)]) == FinishedCount(log)
  {
    RunExtends(concurrency, jobs, log, Looked(answer));
    BusyExtends(concurrency, jobs, log, Looked(answer));
    FirstErrorExtends(jobs, log, Looked(answer));
    AccountsExtends(log, next, active, Looked(answer));
  }

  lemma WaitTracks<T>(
    concurrency: nat, jobs: Jobs<T>, log: seq<Event>, next: nat, active: set<nat>, cancelled: bool)
    requires Tracks(concurrency, jobs, log, next, active, cancelled) && MayWait(log)
    requires Stopping(jobs, log) || Full(concurrency, jobs, log)
    ensures Tracks(concurrency, jobs, log + [Waited], next, active, cancelled)
    ensures Stopping(jobs, log + [Waited]) <==> Stopping(jobs, log)
    ensures FirstError(jobs, log + [Waited]) == FirstError(jobs, log)
    ensures FinishedCount(log + [Waited]) == FinishedCount(log)
  {
    RunExtends(concurrency, jobs, log, Waited);
    BusyExtends(concurrency, jobs, log, Waited);
    FirstErrorExtends(jobs, log, Waited);
    AccountsExtends(log, next, active, Waited);
  }

  lemma FinishTracks<T>(
    concurrency: nat, jobs: Jobs<T>, log: seq<Event>, next: nat, active: set<nat>, index: nat, cancelled: bool)
    requires Tracks(concurrency, jobs, log, next, active, cancelled) && index in active
    requires log != [] && Last(log) == Waited && (jobs[index].Failure? ==> cancelled)
    ensures Tracks(concurrency, jobs, log + [Finished(index)], next, active - {index}, cancelled)
    ensures FinishedCount(log + [Finished(index)]) == FinishedCount(log) + 1
    ensures Stopping(jobs, log + [Finished(index)]) <==> Stopping(jobs, log) || jobs[index].Failure?
  {
    RunExtends(concurrency, jobs, log, Finished(index));
    BusyExtends(concurrency, jobs, log, Finished(index));
    AccountsExtends(log, next, active, Finished(index));
  }

  /** `Tracks`, for an executor and what it shows now. */
  ghost predicate Follows<T>(concurrency: nat, executor: Executor<T>, next: nat)
    reads executor, executor.token
  {
    && executor.Valid()
    && Tracks(concurrency, executor.jobs, executor.Log(), next, executor.active, executor.token.cancelled)
  }

  /** One look at the token. */
  method LookAround<T>(concurrency: nat, executor: Executor<T>, next: nat, ghost results: seq<(nat, T)>)
    returns (cancelled: bool)
    requires Follows(concurrency, executor, next) && Reported(executor.jobs, executor.Log(), results)
    modifies executor.token
    ensures Follows(concurrency, executor, next) && Reported(executor.jobs, executor.Log(), results)
    ensures Later(executor.token) && executor.Log() == old(executor.Log()) + [Looked(cancelled)]
    ensures FirstError(executor.jobs, executor.Log()) == old(FirstError(executor.jobs, executor.Log()))
    ensures FinishedCount(executor.Log()) == old(FinishedCount(executor.Log()))
    ensures Stopping(executor.jobs, executor.Log()) <==> cancelled
  {
    ghost var log := executor.Log();
    cancelled := executor.Look();
    LookTracks(concurrency, executor.jobs, log, next, executor.active, cancelled);
    ReportedExtends(executor.jobs, log, results, Looked(cancelled));
  }

  /** One more job. */
  method StartOne<T>(concurrency: nat, executor: Executor<T>, next: nat, ghost results: seq<(nat, T)>)
    requires Follows(concurrency, executor, next) && Reported(executor.jobs, executor.Log(), results)
    requires JustCleared(executor.Log()) && next < |executor.jobs| && |executor.active| < concurrency
    modifies executor`active, executor.token`journal
    ensures Follows(concurrency, executor, next + 1) && Reported(executor.jobs, executor.Log(), results)
    ensures executor.active == old(executor.active) + {next}
    ensures executor.Log() == old(executor.Log()) + [Started(next)]
    ensures FirstError(executor.jobs, executor.Log()) == old(FirstError(executor.jobs, executor.Log()))
    ensures FinishedCount(executor.Log()) == old(FinishedCount(executor.Log()))
    ensures Stopping(executor.jobs, executor.Log()) <==> old(Stopping(executor.jobs, executor.Log()))
  {
    ghost var log := executor.Log();
    StartTracks(concurrency, executor.jobs, log, next, executor.active, executor.token.cancelled);
    ReportedExtends(executor.jobs, log, results, Started(next));
    executor.Push(next);
  }

  /** Looks at the token, and starts the next waiting job if that finds no cancellation. */
  method StartNext<T>(
    concurrency: nat, executor: Executor<T>, next: nat, ghost results: seq<(nat, T)>)
    returns (next': nat, ghost cancelled: bool)
    requires Follows(concurrency, executor, next) && Reported(executor.jobs, executor.Log(), results)
    requires FirstError(executor.jobs, executor.Log()) == None && |executor.active| < concurrency
    modifies executor`active, executor.token
    ensures Follows(concurrency, executor, next') && Later(executor.token)
    ensures Reported(executor.jobs, executor.Log(), results) && FirstError(executor.jobs, executor.Log()) == None
    ensures FinishedCount(executor.Log()) == old(FinishedCount(executor.Log()))
    ensures Stopping(executor.jobs, executor.Log()) <==> cancelled
    ensures next' == next + (if cancelled || next == |executor.jobs| then 0 else 1)
    ensures executor.active == old(executor.active) + (if next' > next then {next} else {})
    ensures next' == next ==> executor.Log() == old(executor.Log()) + [Looked(cancelled)]
    ensures next' > next ==> executor.Log() == old(executor.Log()) + [Looked(cancelled)] + [Started(next)]
  {
    next' := next;
    var answer := LookAround(concurrency, executor, next, results);
    cancelled := answer;
    if !answer && next < |executor.jobs| {
      StartOne(concurrency, executor, next, results);
      next' := next + 1;
    }
  }

  /** Starts jobs up to the bound. */
  method StartInitial<T>(concurrency: nat, executor: Executor<T>) returns (next: nat)
    requires executor.Valid() && executor.Log() == [] && executor.active == {}
    modifies executor`active, executor.token
    ensures Follows(concurrency, executor, next) && Later(executor.token)
    ensures FirstError(executor.jobs, executor.Log()) == None && FinishedCount(executor.Log()) == 0
    ensures Waited !in executor.Log()
    ensures Stopping(executor.jobs, executor.Log()) || Full(concurrency, executor.jobs, executor.Log())
  {
    next := 0;
    while |executor.active| < concurrency
      invariant Follows(concurrency, executor, next) && Later(executor.token)
      invariant FirstError(executor.jobs, executor.Log()) == None && FinishedCount(executor.Log()) == 0
      invariant Waited !in executor.Log()
      decreases |executor.jobs| - next
    {
      var started;
      ghost var cancelled;
      started, cancelled := StartNext(concurrency, executor, next, []);
      if started == next {
        break;
      }
      next := started;
    }
  }

  /** Takes the outcome of a finished job into the results or the first error. */
  method Record<T>(
    jobs: Jobs<T>, index: nat, ghost log: seq<Event>, results: seq<(nat, T)>, firstError: Option<OperationError>,
    token: CancellationToken)
    returns (results': seq<(nat, T)>, firstError': Option<OperationError>)
    requires index < |jobs| && Finished(index) !in log
    requires Reported(jobs, log, results) && firstError == FirstError(jobs, log)
    modifies token`cancelled
    ensures Reported(jobs, log + [Finished(index)], results')
    ensures firstError' == FirstError(jobs, log + [Finished(index)])
    ensures firstError'.Some? ==> firstError.Some? || (token.cancelled && jobs[index].Failure?)
    ensures firstError'.None? ==> firstError.None? && |results'| == |results| + 1
    ensures token.cancelled == (old(token.cancelled) || (firstError.None? && jobs[index].Failure?))
  {
    results', firstError' := results, firstError;
    FirstErrorExtends(jobs, log, Finished(index));
    match jobs[index]
    case Success(value) =>
      if firstError.None? {
        results' := results + [(index, value)];
      }
    case Failure(error) =>
      if firstError.None? {
        token.Cancel();
        firstError' := Some(error);
      }
  }

  /** What `RunBounded` has in hand between two jobs. */
  ghost predicate Holds<T>(
    concurrency: nat, executor: Executor<T>, next: nat, results: seq<(nat, T)>, firstError: Option<OperationError>)
    reads executor, executor.token
  {
    && Follows(concurrency, executor, next)
    && firstError == FirstError(executor.jobs, executor.Log()) && Reported(executor.jobs, executor.Log(), results)
    && (firstError.Some? ==> Stopping(executor.jobs, executor.Log()))
    && (firstError.None? ==> |results| == FinishedCount(executor.Log()))
    && (Stopping(executor.jobs, executor.Log()) || Full(concurrency, executor.jobs, executor.Log()))
    && MayWait(executor.Log())
  }

  /** Waits for one job and takes its outcome. */
  method Collect<T>(
    concurrency: nat, executor: Executor<T>, next: nat, results: seq<(nat, T)>, firstError: Option<OperationError>)
    returns (results': seq<(nat, T)>, firstError': Option<OperationError>)
    requires Holds(concurrency, executor, next, results, firstError) && executor.active != {}
    modifies executor`active, executor.token
    ensures Follows(concurrency, executor, next) && Later(executor.token)
    ensures firstError' == FirstError(executor.jobs, executor.Log())
    ensures Reported(executor.jobs, executor.Log(), results')
    ensures firstError'.Some? ==> Stopping(executor.jobs, executor.Log())
    ensures firstError'.None? ==> |results'| == FinishedCount(executor.Log())
    ensures |executor.active| == |old(executor.active)| - 1 && Waited in executor.Log()
    ensures Stopping(executor.jobs, executor.Log()) || next == |executor.jobs| || |executor.active| + 1 == concurrency
  {
    ghost var log, active := executor.Log(), executor.active;
    WaitTracks(concurrency, executor.jobs, log, next, active, executor.token.cancelled);
    ReportedExtends(executor.jobs, log, results, Waited);
    var finished := executor.Next();
    var index := finished.value.0;
    results', firstError' := Record(executor.jobs, index, log + [Waited], results, firstError, executor.token);
    FinishTracks(concurrency, executor.jobs, log + [Waited], next, active, index, executor.token.cancelled);
    assert executor.Log() == log + [Waited] + [Finished(index)];
  }

  /** Waits for one job, takes its outcome, and starts another if it may. */
  method Advance<T>(
    concurrency: nat, executor: Executor<T>, next: nat, results: seq<(nat, T)>, firstError: Option<OperationError>)
    returns (next': nat, results': seq<(nat, T)>, firstError': Option<OperationError>)
    requires Holds(concurrency, executor, next, results, firstError) && executor.active != {}
    modifies executor`active, executor.token
    ensures Holds(concurrency, executor, next', results', firstError') && Later(executor.token)
    ensures |executor.jobs| - next' + |executor.active| < |executor.jobs| - next + |old(executor.active)|
  {
    results', firstError' := Collect(concurrency, executor, next, results, firstError);
    next' := next;
    if firstError'.None? {
      ghost var cancelled;
      next', cancelled := StartNext(concurrency, executor, next, results');
    }
  }

  /** With nothing active and no error, a last look decides between values and
      cancellation. */
  method Conclude<T(!new)>(concurrency: nat, executor: Executor<T>, next: nat, results: seq<(nat, T)>)
    returns (r: Result<seq<T>, OperationError>)
    requires Holds(concurrency, executor, next, results, None) && executor.active == {} && concurrency > 0
    modifies executor.token
    ensures Follows(concurrency, executor, next) && executor.active == {} && Later(executor.token)
    ensures FirstError(executor.jobs, executor.Log()) == None
    ensures if Looked(true) in executor.Log() then r == Failure(Cancelled)
            else
              && r.Success? && |r.value| == |executor.jobs|
              && forall i :: 0 <= i < |executor.jobs| ==>
                   executor.jobs[i] == Success(r.value[i]) && Finished(i) in executor.Log()
  {
    ghost var before := executor.Log();
    var cancelled := LookAround(concurrency, executor, next, results);
    assert executor.Log()[|before|] == Looked(cancelled);
    if cancelled {
      return Failure(Cancelled);
    }
    ClearMeansNone(executor.jobs, executor.Log());
    var values := InJobOrder(executor.jobs, executor.Log(), results);
    r := Success(values);
  }

  lemma ClearMeansNone<T>(jobs: Jobs<T>, log: seq<Event>)
    requires !Stopping(jobs, log)
    ensures Looked(true) !in log
  {
    if Looked(true) in log {
      var k :| 0 <= k < |log| && log[k] == Looked(true);
      StoppingAt(jobs, log, k);
    }
  }

  /** Runs every job with at most `concurrency` active, and reports either every value
      in job order, or the first failure in completion order, or cancellation if a look
      found it.  Once it has waited for a job it waits for all it started. */
  method RunBounded<T(!new)>(concurrency: nat, jobs: Jobs<T>, token: CancellationToken)
    returns (r: Result<seq<T>, OperationError>, ghost log: seq<Event>)
    modifies token
    ensures token.journal == old(token.journal) + log && Later(token)
    ensures Run(concurrency, jobs, log) && Busy(concurrency, jobs, log)
    ensures Waited in log ==> AllFinished(log)
    ensures concurrency == 0 ==> r == Failure(Protocol) && log == []
    ensures concurrency > 0 ==>
              match FirstError(jobs, log)
              case Some(error) => r == Failure(error) && token.cancelled
              case None =>
                if Looked(true) in log then r == Failure(Cancelled)
                else
                  && r.Success? && |r.value| == |jobs|
                  && forall i :: 0 <= i < |jobs| ==> jobs[i] == Success(r.value[i]) && Finished(i) in log
  {
    log := [];
    if concurrency == 0 {
      return Failure(Protocol), log;
    }
    var executor := new Executor(jobs, token);
    var next := StartInitial(concurrency, executor);
    ghost var before := executor.Log();
    var cancelled := LookAround(concurrency, executor, next, []);
    log := executor.Log();
    assert log[|before|] == Looked(cancelled);
    if cancelled {
      return Failure(Cancelled), log;
    }
    var results: seq<(nat, T)> := [];
    var firstError: Option<OperationError> := None;
    while executor.active != {}
      invariant Holds(concurrency, executor, next, results, firstError) && Later(token)
      decreases |jobs| - next + |executor.active|
    {
      next, results, firstError := Advance(concurrency, executor, next, results, firstError);
    }
    log := executor.Log();
    if firstError.Some? {
      return Failure(firstError.value), log;
    }
    r := Conclude(concurrency, executor, next, results);
    log := executor.Log();
  }
}
