/**
  The tasks that keep a pull request's check run up to date. A task changes the
  tally under a lock, releases the lock, calls GitHub, and takes the lock again to
  note the id of the check run it created. Any number of tasks can be anywhere in
  between.

  The tasks of one pull request are one machine; those of all pull requests are
  proved to be independent copies of it.
 */
module CheckTasks {
  import opened Options
  import opened PullRequests
  import opened CheckRuns

  /** CheckRunState: the tally, and the check run and commit it is reported on, once known. */
  datatype Run = Run(tally: Tally, checkRun: Option<nat>, headSha: Option<string>)

  const UNSEEN := Run(EMPTY, None, None)

  // ---------------------------------------------------------------- the client object

  class GhChecksClient {
    var runs: map<string, Run>

    constructor ()
      ensures runs == map[]
    {
      runs := map[];
    }

    /** The locked part of record_decision; the snapshot is what gets sent, and where to. */
    method RecordDecision(repo: string, number: nat, info: Info) returns (snapshot: Run)
      modifies this
      ensures var before := if Key(repo, number) in old(runs) then old(runs)[Key(repo, number)] else UNSEEN;
              snapshot == before.(tally := OnDecision(before.tally, info))
      ensures runs == old(runs)[Key(repo, number) := snapshot]
    {
      hide Key;
      var key := Key(repo, number);
      var run := if key in runs then runs[key] else UNSEEN;
      var allowed, denied, pending, risky := run.tally.allowed, run.tally.denied, run.tally.pending, run.tally.risky;
      var bucket := TallyBucket(info.decision);
      if bucket == Allowed { allowed := allowed + 1; }
      else if bucket == Pending { pending := pending + 1; }
      else { denied := denied + 1; }
      if bucket != Allowed && |risky| < MAX_RISKY_ACTIONS {
        risky := risky + [info];
      }
      snapshot := run.(tally := Tally(allowed, denied, pending, risky));
      runs := runs[key := snapshot];
    }

    /** Its second locked part, after GitHub has answered. */
    method StoreCheckRun(repo: string, number: nat, id: nat, sha: string)
      modifies this
      ensures var key := Key(repo, number);
              runs == if key in old(runs) then old(runs)[key := Run(old(runs)[key].tally, Some(id), Some(sha))]
                      else old(runs)
    {
      hide Key;
      var key := Key(repo, number);
      if key in runs {
        runs := runs[key := runs[key].(checkRun := Some(id), headSha := Some(sha))];
      }
    }

    /**
      The locked part of record_approval_decision_resolution: nothing tracked or
      pending means nothing to do. A snapshot without a check run is not sent.
     */
    method RecordResolution(repo: string, number: nat, approved: bool) returns (snapshot: Option<Run>)
      modifies this
      ensures var key := Key(repo, number);
              if key !in old(runs) || old(runs)[key].tally.pending == 0 then runs == old(runs) && snapshot == None
              else && snapshot == Some(old(runs)[key].(tally := OnResolution(old(runs)[key].tally, approved)))
                   && runs == old(runs)[key := snapshot.value]
    {
      hide MarkOldest, Key, Label;
      var key := Key(repo, number);
      if key !in runs || runs[key].tally.pending == 0 {
        return None;
      }
      var t := runs[key].tally;
      var i := 0;
      while i < |t.risky| && t.risky[i].decision != "require_approval"
        invariant i <= |t.risky|
        invariant forall j :: 0 <= j < i ==> t.risky[j].decision != "require_approval"
      {
        i := i + 1;
      }
      MarkedAt(t.risky, Label(approved), i);
      var risky := t.risky;
      if i < |risky| {
        risky := risky[i := risky[i].(decision := Label(approved))];
      }
      var after := t.(pending := t.pending - 1, risky := risky);
      after := if approved then after.(allowed := after.allowed + 1) else after.(denied := after.denied + 1);
      snapshot := Some(runs[key].(tally := after));
      runs := runs[key := snapshot.value];
    }
  }

  // ---------------------------------------------------------------- the tasks of one pull request

  /** Where a task is: about to call GitHub, about to note the check run, or gone. */
  datatype Task =
    | Deciding(tally: Tally, target: Option<nat>, cached: Option<string>)
    | Storing(id: nat, sha: string)
    | Resolving(tally: Tally, id: nat)
    | Finished

  /** A check run on GitHub; its id is its place. */
  datatype Shown = Shown(sha: string, conclusion: Conclusion)

  datatype Pr = Pr(run: Run, tasks: seq<Task>, shown: seq<Shown>)

  datatype Step =
    | Record(info: Info)                                // the locked part of a decision
    | Resolve(approved: bool)                           // the locked part of a resolution
    | Deliver(task: nat, sha: string, answered: bool)   // GitHub acts on a task's call; the answer may be lost
    | Store(task: nat)                                  // the check run is noted
    | Fail(task: nat)                                   // the call does not reach GitHub

  function Apply(p: Pr, step: Step): Pr {
    match step
    case Record(info) =>
      var run := p.run.(tally := OnDecision(p.run.tally, info));
      p.(run := run, tasks := p.tasks + [Deciding(run.tally, run.checkRun, run.headSha)])
    case Resolve(approved) =>
      if p.run.tally.pending == 0 then p
      else
        var run := p.run.(tally := OnResolution(p.run.tally, approved));
        if run.checkRun.None? then p.(run := run)
        else p.(run := run, tasks := p.tasks + [Resolving(run.tally, run.checkRun.value)])
    case Deliver(i, sha, answered) => if i < |p.tasks| then Delivered(p, i, sha, answered) else p
    case Store(i) =>
      if i < |p.tasks| && p.tasks[i].Storing? then
        p.(run := p.run.(checkRun := Some(p.tasks[i].id), headSha := Some(p.tasks[i].sha)),
           tasks := p.tasks[i := Finished])
      else p
    case Fail(i) =>
      if i < |p.tasks| && (p.tasks[i].Deciding? || p.tasks[i].Resolving?) then p.(tasks := p.tasks[i := Finished])
      else p
  }

  /** GitHub creates a check run, or updates the one it is told. */
  function Delivered(p: Pr, i: nat, sha: string, answered: bool): Pr
    requires i < |p.tasks|
  {
    match p.tasks[i]
    case Deciding(tally, None, cached) =>
      var commit := if cached.Some? then cached.value else sha;
      p.(shown := p.shown + [Shown(commit, tally.Conclusion())],
         tasks := p.tasks[i := if answered then Storing(|p.shown|, commit) else Finished])
    case Deciding(tally, Some(id), cached) =>
      var commit := if cached.Some? then cached.value else sha;
      if id >= |p.shown| then p
      else p.(shown := p.shown[id := p.shown[id].(conclusion := tally.Conclusion())],
              tasks := p.tasks[i := if answered then Storing(id, commit) else Finished])
    case Resolving(tally, id) =>
      if id >= |p.shown| then p
      else p.(shown := p.shown[id := p.shown[id].(conclusion := tally.Conclusion())], tasks := p.tasks[i := Finished])
    case _ => p
  }

  function After(steps: seq<Step>): Pr {
    if steps == [] then Pr(UNSEEN, [], []) else Apply(After(steps[..|steps| - 1]), steps[|steps| - 1])
  }

  lemma AfterPlus(steps: seq<Step>, step: Step)
    ensures After(steps + [step]) == Apply(After(steps), step)
  {
    assert (steps + [step])[..|steps|] == steps;
  }

  // ---------------------------------------------------------------- pull requests do not meet

  /** A step of one pull request. */
  datatype Move = Move(repo: string, number: nat, step: Step)

  function Everywhere(moves: seq<Move>): map<string, Pr> {
    if moves == [] then map[] else Moved(Everywhere(moves[..|moves| - 1]), moves[|moves| - 1])
  }

  function Moved(all: map<string, Pr>, move: Move): map<string, Pr> {
    all[Key(move.repo, move.number) := Apply(PrAt(all, move.repo, move.number), move.step)]
  }

  function PrAt(all: map<string, Pr>, repo: string, number: nat): Pr {
    if Key(repo, number) in all then all[Key(repo, number)] else After([])
  }

  function StepsOf(moves: seq<Move>, repo: string, number: nat): seq<Step> {
    if moves == [] then []
    else
      var before, last := StepsOf(moves[..|moves| - 1], repo, number), moves[|moves| - 1];
      if last.repo == repo && last.number == number then before + [last.step] else before
  }

  /** In every interleaving over all pull requests, each is in the state its own steps alone put it in. */
  lemma {:induction false} PullRequestsIndependent(moves: seq<Move>, repo: string, number: nat)
    ensures PrAt(Everywhere(moves), repo, number) == After(StepsOf(moves, repo, number))
  {
    hide Apply, Key;
    if moves != [] {
      var last := moves[|moves| - 1];
      PullRequestsIndependent(moves[..|moves| - 1], repo, number);
      AfterPlus(StepsOf(moves[..|moves| - 1], repo, number), last.step);
      if Key(last.repo, last.number) == Key(repo, number) {
        KeyInjective(last.repo, last.number, repo, number);
      }
    }
  }

  /** What the object holds for each pull request is what its machine holds. */
  ghost predicate Tracks(runs: map<string, Run>, all: map<string, Pr>) {
    forall repo, number: nat ::
      && RunIn(runs, repo, number) == PrAt(all, repo, number).run
      && (PrAt(all, repo, number).tasks != [] ==> Key(repo, number) in runs)
  }

  function RunIn(runs: map<string, Run>, repo: string, number: nat): Run {
    if Key(repo, number) in runs then runs[Key(repo, number)] else UNSEEN
  }

  /** Changing one pull request in the object and in its machine alike keeps the two together. */
  lemma TracksOn(runs: map<string, Run>, all: map<string, Pr>, repo: string, number: nat, run: Run, p: Pr)
    requires Tracks(runs, all) && p.run == run
    ensures Tracks(runs[Key(repo, number) := run], all[Key(repo, number) := p])
  {
    hide Key;
    var later, moved := runs[Key(repo, number) := run], all[Key(repo, number) := p];
    forall r, n: nat
      ensures RunIn(later, r, n) == PrAt(moved, r, n).run
      ensures PrAt(moved, r, n).tasks != [] ==> Key(r, n) in later
    {
      assert RunIn(runs, r, n) == PrAt(all, r, n).run;
      assert PrAt(all, r, n).tasks != [] ==> Key(r, n) in runs;
    }
  }

  /** What `RecordDecision` does is the step of a decision. */
  lemma DecisionIsStep(runs: map<string, Run>, all: map<string, Pr>, repo: string, number: nat, info: Info)
    requires Tracks(runs, all)
    ensures var before := RunIn(runs, repo, number);
            Tracks(runs[Key(repo, number) := before.(tally := OnDecision(before.tally, info))],
                   Moved(all, Move(repo, number, Record(info))))
  {
    hide Key, OnDecision;
    var p := PrAt(all, repo, number);
    assert RunIn(runs, repo, number) == p.run;
    TracksOn(runs, all, repo, number, Apply(p, Record(info)).run, Apply(p, Record(info)));
  }

  /** What `RecordResolution` does is the step of a resolution; a message goes out exactly if there is a check run. */
  lemma ResolutionIsStep(runs: map<string, Run>, all: map<string, Pr>, repo: string, number: nat, approved: bool)
    requires Tracks(runs, all)
    ensures var key, before, p := Key(repo, number), RunIn(runs, repo, number), PrAt(all, repo, number);
            && (key !in runs || before.tally.pending == 0 ==>
                  Moved(all, Move(repo, number, Resolve(approved))) == all[key := p])
            && (key in runs && before.tally.pending > 0 ==>
                  && Tracks(runs[key := before.(tally := OnResolution(before.tally, approved))],
                            Moved(all, Move(repo, number, Resolve(approved))))
                  && (|Apply(p, Resolve(approved)).tasks| > |p.tasks| <==> before.checkRun.Some?))
  {
    hide Key, OnResolution;
    var p := PrAt(all, repo, number);
    assert RunIn(runs, repo, number) == p.run;
    TracksOn(runs, all, repo, number, Apply(p, Resolve(approved)).run, Apply(p, Resolve(approved)));
  }

  /** What `StoreCheckRun` does for a task whose call was answered is the step that notes the check run. */
  lemma StoreIsStep(runs: map<string, Run>, all: map<string, Pr>, repo: string, number: nat, i: nat)
    requires Tracks(runs, all)
    requires i < |PrAt(all, repo, number).tasks| && PrAt(all, repo, number).tasks[i].Storing?
    ensures var key, t := Key(repo, number), PrAt(all, repo, number).tasks[i];
            && key in runs
            && Tracks(runs[key := Run(runs[key].tally, Some(t.id), Some(t.sha))],
                      Moved(all, Move(repo, number, Store(i))))
  {
    hide Key;
    var p := PrAt(all, repo, number);
    assert RunIn(runs, repo, number) == p.run;
    assert p.tasks != [] && Key(repo, number) in runs;
    TracksOn(runs, all, repo, number, Apply(p, Store(i)).run, Apply(p, Store(i)));
  }

  // ---------------------------------------------------------------- the tally is that of the history

  function History(steps: seq<Step>): seq<Op> {
    if steps == [] then []
    else
      var before, last := History(steps[..|steps| - 1]), steps[|steps| - 1];
      match last
      case Record(info) => before + [Decided(info)]
      case Resolve(approved) => before + [Resolved(approved)]
      case _ => before
  }

  /** Whatever the tasks do about GitHub, the tally is that of the decisions and resolutions, in lock order. */
  lemma {:induction false} TallyIsOfHistory(steps: seq<Step>)
    ensures After(steps).run.tally == Fold(History(steps))
  {
    hide OnDecision, OnResolution;
    if steps != [] {
      var h := History(steps[..|steps| - 1]);
      TallyIsOfHistory(steps[..|steps| - 1]);
      NoPendingNoChange(Fold(h));
      if steps[|steps| - 1].Record? {
        assert (h + [Decided(steps[|steps| - 1].info)])[..|h|] == h;
      } else if steps[|steps| - 1].Resolve? {
        assert (h + [Resolved(steps[|steps| - 1].approved)])[..|h|] == h;
      }
    }
  }

  lemma NoPendingNoChange(t: Tally)
    ensures t.pending == 0 ==> forall b :: OnResolution(t, b) == t
  {
  }

  // ---------------------------------------------------------------- a failure on show is true

  /** What a task is going to say, or a check run says, is borne out by the tally if it is a failure. */
  ghost predicate FailuresTrue(p: Pr) {
    && (forall i :: 0 <= i < |p.tasks| && (p.tasks[i].Deciding? || p.tasks[i].Resolving?)
                    ==> p.tasks[i].tally.denied <= p.run.tally.denied)
    && (forall i :: 0 <= i < |p.shown| && p.shown[i].conclusion == Failure ==> p.run.tally.denied > 0)
  }

  /** In every run, a failure shown is true of the present tally, however old the snapshot was when it was sent. */
  lemma {:induction false} ShownFailureIsTrue(steps: seq<Step>)
    ensures FailuresTrue(After(steps))
  {
    if steps != [] {
      ShownFailureIsTrue(steps[..|steps| - 1]);
      FailuresStayTrue(After(steps[..|steps| - 1]), steps[|steps| - 1]);
    }
  }

  lemma FailuresStayTrue(p: Pr, step: Step)
    requires FailuresTrue(p)
    ensures FailuresTrue(Apply(p, step))
  {
    hide MarkOldest, TallyBucket;
    assert p.run.tally.denied <= Apply(p, step).run.tally.denied;
  }

  // ---------------------------------------------------------------- how many tasks are under way

  function InFlight(tasks: seq<Task>): nat {
    if tasks == [] then 0 else InFlight(tasks[..|tasks| - 1]) + Weight(tasks[|tasks| - 1])
  }

  function Weight(t: Task): nat {
    if t.Finished? then 0 else 1
  }

  /** The tasks that are going to create a check run. */
  function Creators(tasks: seq<Task>): nat {
    if tasks == [] then 0 else Creators(tasks[..|tasks| - 1]) + CreatorWeight(tasks[|tasks| - 1])
  }

  function CreatorWeight(t: Task): nat {
    if t.Deciding? && t.target.None? then 1 else 0
  }

  lemma CountPlus(tasks: seq<Task>, t: Task)
    ensures InFlight(tasks + [t]) == InFlight(tasks) + Weight(t)
    ensures Creators(tasks + [t]) == Creators(tasks) + CreatorWeight(t)
  {
    assert (tasks + [t])[..|tasks|] == tasks;
  }

  lemma {:induction false} CountChange(tasks: seq<Task>, i: nat, t: Task)
    requires i < |tasks|
    ensures InFlight(tasks[i := t]) == InFlight(tasks) - Weight(tasks[i]) + Weight(t)
    ensures Creators(tasks[i := t]) == Creators(tasks) - CreatorWeight(tasks[i]) + CreatorWeight(t)
    ensures InFlight(tasks) >= Weight(tasks[i]) && Creators(tasks) >= CreatorWeight(tasks[i])
    decreases |tasks|
  {
    hide Weight, CreatorWeight;
    var n := |tasks| - 1;
    if i == n {
      assert tasks[i := t][..n] == tasks[..n];
    } else {
      assert tasks[i := t][..n] == tasks[..n][i := t];
      CountChange(tasks[..n], i, t);
    }
  }

  lemma {:induction false} SomeInFlight(tasks: seq<Task>, i: nat)
    requires i < |tasks| && !tasks[i].Finished?
    ensures InFlight(tasks) >= 1
    ensures InFlight(tasks) == 1 ==> forall j :: 0 <= j < |tasks| && j != i ==> tasks[j].Finished?
    decreases |tasks|
  {
    var n := |tasks| - 1;
    if i < n {
      SomeInFlight(tasks[..n], i);
    } else {
      forall j | 0 <= j < n && InFlight(tasks) == 1
        ensures tasks[j].Finished?
      {
        if !tasks[j].Finished? { SomeInFlight(tasks[..n], j); }
      }
    }
  }

  /** No decision or resolution takes the lock while `k` tasks are under way. */
  ghost predicate AtMost(steps: seq<Step>, k: nat) {
    forall n :: 0 <= n < |steps| && (steps[n].Record? || steps[n].Resolve?) ==> InFlight(After(steps[..n]).tasks) < k
  }

  /** Every call reaches GitHub and is answered. */
  predicate Reliable(steps: seq<Step>) {
    forall n :: 0 <= n < |steps| ==> !steps[n].Fail? && (steps[n].Deliver? ==> steps[n].answered)
  }

  lemma AtMostPlus(steps: seq<Step>, step: Step, k: nat)
    requires AtMost(steps, k) && Reliable(steps)
    requires step.Record? || step.Resolve? ==> InFlight(After(steps).tasks) < k
    requires !step.Fail? && (step.Deliver? ==> step.answered)
    ensures AtMost(steps + [step], k) && Reliable(steps + [step]) && After(steps + [step]) == Apply(After(steps), step)
  {
    hide Apply, InFlight;
    AfterPlus(steps, step);
    forall n | 0 <= n < |steps + [step]| && ((steps + [step])[n].Record? || (steps + [step])[n].Resolve?)
      ensures InFlight(After((steps + [step])[..n]).tasks) < k
    {
      assert (steps + [step])[..n] == if n < |steps| then steps[..n] else steps;
    }
  }

  lemma AtMostMinus(steps: seq<Step>, k: nat)
    requires steps != [] && AtMost(steps, k) && Reliable(steps)
    ensures AtMost(steps[..|steps| - 1], k) && Reliable(steps[..|steps| - 1])
    ensures var last := steps[|steps| - 1];
            last.Record? || last.Resolve? ==> InFlight(After(steps[..|steps| - 1]).tasks) < k
  {
    hide After, InFlight;
    var before := steps[..|steps| - 1];
    forall n | 0 <= n < |before| && (before[n].Record? || before[n].Resolve?)
      ensures InFlight(After(before[..n]).tasks) < k
    {
      assert before[..n] == steps[..n];
    }
  }

  // ---------------------------------------------------------------- how many check runs

  /** The check runs there are and those still to be created. */
  ghost predicate RunsWithin(p: Pr, k: nat) {
    && InFlight(p.tasks) <= k
    && |p.shown| + Creators(p.tasks) <= k
    && (p.run.checkRun.None? ==>
          && |p.shown| + Creators(p.tasks) <= InFlight(p.tasks)
          && forall i :: 0 <= i < |p.tasks| ==>
                           !p.tasks[i].Resolving? && !(p.tasks[i].Deciding? && p.tasks[i].target.Some?))
  }

  /** With at most `k` tasks at once, one pull request gets at most `k` check runs. */
  lemma {:induction false} CheckRunsWithin(steps: seq<Step>, k: nat)
    requires k >= 1 && AtMost(steps, k) && Reliable(steps)
    ensures RunsWithin(After(steps), k)
    ensures |After(steps).shown| <= k
  {
    hide RunsWithin, Apply;
    if steps == [] {
      NothingWithin(k);
    } else {
      AtMostMinus(steps, k);
      CheckRunsWithin(steps[..|steps| - 1], k);
      StaysWithin(After(steps[..|steps| - 1]), steps[|steps| - 1], k);
    }
  }

  lemma NothingWithin(k: nat)
    ensures RunsWithin(After([]), k) && After([]).shown == []
  {
  }

  lemma StaysWithin(p: Pr, step: Step, k: nat)
    requires RunsWithin(p, k) && !step.Fail? && (step.Deliver? ==> step.answered)
    requires step.Record? || step.Resolve? ==> InFlight(p.tasks) < k
    ensures RunsWithin(Apply(p, step), k) && |Apply(p, step).shown| <= k
  {
    hide OnDecision, OnResolution, InFlight, Creators;
    var q := Apply(p, step);
    if |q.tasks| > |p.tasks| {
      CountPlus(p.tasks, q.tasks[|p.tasks|]);
    } else if (step.Deliver? || step.Store?) && step.task < |p.tasks| {
      CountChange(p.tasks, step.task, q.tasks[step.task]);
      assert q.tasks == p.tasks[step.task := q.tasks[step.task]];
    }
  }

  /** And `k` tasks that start together create that many. */
  lemma CheckRunsReached(info: Info, k: nat) returns (steps: seq<Step>)
    ensures AtMost(steps, k) && Reliable(steps) && |After(steps).shown| == k
  {
    steps := StartedTogether(info, k, k);
    steps := CreatedAll(steps, k, k);
  }

  /** So a pull request has one check run in every run exactly if its tasks never overlap. */
  lemma OneCheckRunIffAlone(k: nat)
    requires k >= 1
    ensures (forall steps :: AtMost(steps, k) && Reliable(steps) ==> |After(steps).shown| <= 1) <==> k == 1
  {
    hide After;
    if k == 1 {
      forall steps | AtMost(steps, k) && Reliable(steps)
        ensures |After(steps).shown| <= 1
      {
        CheckRunsWithin(steps, 1);
      }
    } else {
      var steps := CheckRunsReached(Info("", "", "", "", 0), k);
    }
  }

  /** Nothing but decisions that know of no check run, the first `done` of which have created one. */
  ghost predicate Creating(p: Pr, n: nat, done: nat) {
    && |p.tasks| == n && InFlight(p.tasks) == n && |p.shown| == done && p.run.checkRun.None?
    && forall i :: done <= i < n ==> p.tasks[i].Deciding? && p.tasks[i].target.None?
  }

  lemma {:induction false} StartedTogether(info: Info, k: nat, n: nat) returns (steps: seq<Step>)
    requires n <= k
    ensures AtMost(steps, k) && Reliable(steps) && Creating(After(steps), n, 0)
  {
    hide OnDecision, After, InFlight;
    NoneInFlight();
    if n == 0 {
      steps := [];
    } else {
      steps := StartedTogether(info, k, n - 1);
      var p := After(steps);
      AtMostPlus(steps, Record(info), k);
      CountPlus(p.tasks, Apply(p, Record(info)).tasks[n - 1]);
      steps := steps + [Record(info)];
    }
  }

  lemma {:induction false} CreatedAll(before: seq<Step>, k: nat, n: nat) returns (steps: seq<Step>)
    requires AtMost(before, k) && Reliable(before) && Creating(After(before), k, 0) && n <= k
    ensures AtMost(steps, k) && Reliable(steps) && Creating(After(steps), k, n)
  {
    hide After;
    if n == 0 {
      steps := before;
    } else {
      steps := CreatedAll(before, k, n - 1);
      var p, step := After(steps), Deliver(n - 1, "", true);
      AtMostPlus(steps, step, k);
      CountChange(p.tasks, n - 1, Apply(p, step).tasks[n - 1]);
      steps := steps + [step];
    }
  }

  // ---------------------------------------------------------------- when the check run is current

  /** There is one check run, once anything was decided, and what it shows is true. */
  ghost predicate Current(p: Pr) {
    || (p.run.tally == EMPTY && p.shown == [] && p.run.checkRun == None)
    || (|p.shown| == 1 && p.run.checkRun == Some(0) && p.shown[0].conclusion == p.run.tally.Conclusion())
  }

  /** What a task under way knows is up to date. */
  ghost predicate Fresh(p: Pr, t: Task) {
    match t
    case Deciding(tally, target, _) =>
      && tally == p.run.tally && target == p.run.checkRun
      && ((target == None && p.shown == []) || (target == Some(0) && |p.shown| == 1))
    case Storing(id, _) =>
      && id == 0 && |p.shown| == 1 && p.shown[0].conclusion == p.run.tally.Conclusion()
      && (p.run.checkRun == None || p.run.checkRun == Some(0))
    case Resolving(tally, id) => tally == p.run.tally && id == 0 && |p.shown| == 1 && p.run.checkRun == Some(0)
    case Finished => true
  }

  ghost predicate Alone(p: Pr) {
    && InFlight(p.tasks) <= 1 && (InFlight(p.tasks) == 0 ==> Current(p))
    && forall i :: 0 <= i < |p.tasks| ==> Fresh(p, p.tasks[i])
  }

  lemma {:induction false} OneAtATime(steps: seq<Step>)
    requires AtMost(steps, 1) && Reliable(steps)
    ensures Alone(After(steps))
  {
    hide Alone, Apply;
    if steps == [] {
      NobodyYet();
    } else {
      AtMostMinus(steps, 1);
      OneAtATime(steps[..|steps| - 1]);
      AloneStep(After(steps[..|steps| - 1]), steps[|steps| - 1]);
    }
  }

  lemma NobodyYet()
    ensures Alone(After([]))
  {
  }

  lemma AloneStep(p: Pr, step: Step)
    requires Alone(p) && !step.Fail? && (step.Deliver? ==> step.answered)
    requires step.Record? || step.Resolve? ==> InFlight(p.tasks) < 1
    ensures Alone(Apply(p, step))
  {
    hide OnDecision, OnResolution, InFlight, Creators, ComputeConclusion;
    var q := Apply(p, step);
    if step.Record? || step.Resolve? {
      AllFinished(p.tasks);
      if |q.tasks| > |p.tasks| { CountPlus(p.tasks, q.tasks[|p.tasks|]); }
    } else if step.task < |p.tasks| && !p.tasks[step.task].Finished? {
      SomeInFlight(p.tasks, step.task);
      CountChange(p.tasks, step.task, q.tasks[step.task]);
      assert q.tasks == p.tasks[step.task := q.tasks[step.task]];
    }
  }

  lemma AllFinished(tasks: seq<Task>)
    requires InFlight(tasks) == 0
    ensures forall i :: 0 <= i < |tasks| ==> tasks[i].Finished?
  {
    forall i | 0 <= i < |tasks|
      ensures tasks[i].Finished?
    {
      if !tasks[i].Finished? { SomeInFlight(tasks, i); }
    }
  }

  /**
    With every call answered, the check run of a pull request is the only one and
    is current whenever no task is under way, if and only if tasks never overlap.
   */
  lemma CurrentIffAlone(k: nat)
    requires k >= 1
    ensures (forall steps :: AtMost(steps, k) && Reliable(steps) && InFlight(After(steps).tasks) == 0
                             ==> Current(After(steps)))
       <==> k == 1
  {
    hide After, Current;
    if k == 1 {
      forall steps | AtMost(steps, k) && Reliable(steps) && InFlight(After(steps).tasks) == 0
        ensures Current(After(steps))
      {
        OneAtATime(steps);
      }
    } else {
      var allow, deny := Info("", "", "allow", "", 0), Info("", "", "deny", "", 0);
      var steps := OvertakenDenialShowsSuccess(allow, deny);
      MoreAllowed(steps, 2, k);
    }
  }

  lemma MoreAllowed(steps: seq<Step>, j: nat, k: nat)
    requires AtMost(steps, j) && j <= k
    ensures AtMost(steps, k)
  {
  }

  /** Two tasks whose messages cross: the last word is a success from before the denial. */
  lemma OvertakenDenialShowsSuccess(allow: Info, deny: Info) returns (steps: seq<Step>)
    requires TallyBucket(allow.decision) == Allowed && TallyBucket(deny.decision) == Denied
    ensures AtMost(steps, 2) && Reliable(steps) && InFlight(After(steps).tasks) == 0 && !Current(After(steps))
    ensures After(steps).run.tally.Conclusion() == Failure
    ensures |After(steps).shown| == 1 && After(steps).shown[0].conclusion == Success
  {
    hide After, InFlight;
    steps := Reported(allow);
    var t2, t3 := Tally(2, 0, 0, []), Tally(2, 1, 0, [deny]);
    var late, prompt := Deciding(t2, Some(0), Some("")), Deciding(t3, Some(0), Some(""));
    CountThree(Finished, late, prompt);
    AtMostPlus(steps, Record(allow), 2);
    steps := steps + [Record(allow)];
    assert After(steps) == Pr(Run(t2, Some(0), Some("")), [Finished, late], [Shown("", Success)]);
    assert OnDecision(t2, deny) == t3 by { assert t2.risky + [deny] == [deny]; }
    AtMostPlus(steps, Record(deny), 2);
    steps := steps + [Record(deny)];
    assert After(steps) == Pr(Run(t3, Some(0), Some("")), [Finished, late, prompt], [Shown("", Success)]);
    steps := Crossed(steps, t2, t3);
  }

  /** One decision, told and noted. */
  lemma Reported(allow: Info) returns (steps: seq<Step>)
    requires TallyBucket(allow.decision) == Allowed
    ensures AtMost(steps, 2) && Reliable(steps)
    ensures After(steps) == Pr(Run(Tally(1, 0, 0, []), Some(0), Some("")), [Finished], [Shown("", Success)])
  {
    hide After, InFlight;
    var t := Tally(1, 0, 0, []);
    steps := FirstDecision(allow);
    AtMostPlus(steps, Deliver(0, "", true), 2);
    steps := steps + [Deliver(0, "", true)];
    assert After(steps) == Pr(Run(t, None, None), [Storing(0, "")], [Shown("", Success)]);
    AtMostPlus(steps, Store(0), 2);
    steps := steps + [Store(0)];
  }

  lemma FirstDecision(allow: Info) returns (steps: seq<Step>)
    requires TallyBucket(allow.decision) == Allowed
    ensures AtMost(steps, 2) && Reliable(steps)
    ensures var t := Tally(1, 0, 0, []); After(steps) == Pr(Run(t, None, None), [Deciding(t, None, None)], [])
  {
    hide TallyBucket, InFlight;
    steps := [] + [Record(allow)];
    NoneInFlight();
    AtMostPlus([], Record(allow), 2);
  }

  lemma NoneInFlight()
    ensures After([]) == Pr(UNSEEN, [], []) && InFlight([]) == 0
  {
  }

  lemma Crossed(before: seq<Step>, t2: Tally, t3: Tally) returns (steps: seq<Step>)
    requires AtMost(before, 2) && Reliable(before) && t2.Conclusion() == Success && t3.Conclusion() == Failure
    requires After(before) == Pr(Run(t3, Some(0), Some("")),
                                 [Finished, Deciding(t2, Some(0), Some("")), Deciding(t3, Some(0), Some(""))],
                                 [Shown("", Success)])
    ensures AtMost(steps, 2) && Reliable(steps) && InFlight(After(steps).tasks) == 0
    ensures After(steps).run.tally == t3 && After(steps).shown == [Shown("", Success)]
  {
    hide After, InFlight;
    var l1, l2, l3, l4 := Deliver(2, "", true), Store(2), Deliver(1, "", true), Store(1);
    AtMostPlus(before, l1, 2);
    AtMostPlus(before + [l1], l2, 2);
    AtMostPlus(before + [l1] + [l2], l3, 2);
    AtMostPlus(before + [l1] + [l2] + [l3], l4, 2);
    steps := before + [l1] + [l2] + [l3] + [l4];
    assert After(steps).tasks == [Finished, Finished, Finished];
    CountThree(Finished, Finished, Finished);
  }

  lemma CountThree(a: Task, b: Task, c: Task)
    ensures InFlight([a]) == Weight(a)
    ensures InFlight([a, b]) == Weight(a) + Weight(b)
    ensures InFlight([a, b, c]) == Weight(a) + Weight(b) + Weight(c)
  {
    assert [a, b, c][..2] == [a, b] && [a, b][..1] == [a] && [a][..0] == [];
  }

  /**
    A resolution that takes the lock before the first check run is noted has nowhere
    to report to: the check stays at action required although nothing is open.
   */
  lemma EarlyResolutionLost(ask: Info) returns (steps: seq<Step>)
    requires ask.decision == "require_approval"
    ensures AtMost(steps, 2) && Reliable(steps) && InFlight(After(steps).tasks) == 0
    ensures After(steps).run.tally.Conclusion() == Success
    ensures |After(steps).shown| == 1 && After(steps).shown[0].conclusion == ActionRequired
  {
    hide After, InFlight, MarkOldest, OnDecision;
    var t := Tally(0, 0, 1, [ask]);
    steps := Asked(ask);
    CountThree(Deciding(t, None, None), Finished, Finished);
    CountThree(Finished, Finished, Finished);
    var l2, l3, l4 := Resolve(true), Deliver(0, "", true), Store(0);
    AtMostPlus(steps, l2, 2);
    assert OnResolution(t, true).Conclusion() == Success;
    AtMostPlus(steps + [l2], l3, 2);
    AtMostPlus(steps + [l2] + [l3], l4, 2);
    steps := steps + [l2] + [l3] + [l4];
    assert After(steps).tasks == [Finished];
  }

  lemma Asked(ask: Info) returns (steps: seq<Step>)
    requires ask.decision == "require_approval"
    ensures AtMost(steps, 2) && Reliable(steps)
    ensures var t := Tally(0, 0, 1, [ask]); After(steps) == Pr(Run(t, None, None), [Deciding(t, None, None)], [])
  {
    hide InFlight, After;
    NoneInFlight();
    AtMostPlus([], Record(ask), 2);
    steps := [] + [Record(ask)];
    assert TallyBucket(ask.decision) == Pending && EMPTY.risky + [ask] == [ask];
  }
}
