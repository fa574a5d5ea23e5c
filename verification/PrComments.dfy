/**
  The cap on deny comments per pull request. The cap is checked before the request
  is sent and the counter moves after GitHub has answered, so tasks under way
  together can go past the cap, and a comment whose answer is lost is never counted.
  This module says exactly how far the comments posted can go.

  The tasks of one pull request are one machine; those of all pull requests are
  proved to be independent copies of it.
 */
module PrComments {
  import opened PullRequests

  const MAX_COMMENTS_PER_PR: nat := 5

  /** The counters behind the lock. */
  class GhPrCommenter {
    var counts: map<string, nat>

    constructor ()
      ensures counts == map[]
    {
      counts := map[];
    }

    method UnderLimit(repo: string, number: nat) returns (ok: bool)
      ensures ok <==> CountIn(counts, Key(repo, number)) < MAX_COMMENTS_PER_PR
    {
      var key := Key(repo, number);
      var count := 0;
      if key in counts { count := counts[key]; }
      ok := count < MAX_COMMENTS_PER_PR;
    }

    method Increment(repo: string, number: nat)
      modifies this
      ensures counts == old(counts)[Key(repo, number) := CountIn(old(counts), Key(repo, number)) + 1]
    {
      var key := Key(repo, number);
      if key !in counts { counts := counts[key := 0]; }
      counts := counts[key := counts[key] + 1];
    }
  }

  function CountIn(m: map<string, nat>, key: string): nat {
    if key in m then m[key] else 0
  }

  // ---------------------------------------------------------------- the tasks of one pull request

  /**
    The counter; the tasks whose request is on its way, and those whose comment is made
    and whose answer is on its way; the comments made, and the answers that were lost.
   */
  datatype Pr = Pr(count: nat, waiting: nat, accepted: nat, posted: nat, lost: nat) {
    function InFlight(): nat {
      waiting + accepted
    }
  }

  const UNSEEN := Pr(0, 0, 0, 0, 0)

  datatype Step =
    | Begin     // a task finds the counter under the cap and sends its request
    | Accept    // GitHub makes the comment
    | Refuse    // GitHub does not, or the request never gets there
    | Answer    // the task hears of its comment and counts it
    | Lose      // the answer is lost: the task ends without counting

  function Apply(p: Pr, step: Step): Pr {
    match step
    case Begin => if p.count < MAX_COMMENTS_PER_PR then p.(waiting := p.waiting + 1) else p
    case Accept =>
      if p.waiting == 0 then p
      else p.(waiting := p.waiting - 1, accepted := p.accepted + 1, posted := p.posted + 1)
    case Refuse => if p.waiting == 0 then p else p.(waiting := p.waiting - 1)
    case Answer => if p.accepted == 0 then p else p.(accepted := p.accepted - 1, count := p.count + 1)
    case Lose => if p.accepted == 0 then p else p.(accepted := p.accepted - 1, lost := p.lost + 1)
  }

  function After(steps: seq<Step>): Pr {
    if steps == [] then UNSEEN else Apply(After(steps[..|steps| - 1]), steps[|steps| - 1])
  }

  lemma AfterPlus(steps: seq<Step>, step: Step)
    ensures After(steps + [step]) == Apply(After(steps), step)
  {
    assert (steps + [step])[..|steps|] == steps;
  }

  /** At no point are more than `k` tasks under way. */
  ghost predicate AtMost(steps: seq<Step>, k: nat) {
    After(steps).InFlight() <= k && (steps == [] || AtMost(steps[..|steps| - 1], k))
  }

  // ---------------------------------------------------------------- pull requests do not meet

  /** A step of one pull request. */
  datatype Move = Move(repo: string, number: nat, step: Step)

  function Everywhere(moves: seq<Move>): map<string, Pr> {
    if moves == [] then map[] else Moved(Everywhere(moves[..|moves| - 1]), moves[|moves| - 1])
  }

  function Moved(all: map<string, Pr>, move: Move): map<string, Pr> {
    all[Key(move.repo, move.number) := Apply(PrAt(all, move.repo, move.number), move.step)]
  }

  function PrAt(all: map<string, Pr>, repo: string, number: nat): Pr {
    if Key(repo, number) in all then all[Key(repo, number)] else UNSEEN
  }

  function StepsOf(moves: seq<Move>, repo: string, number: nat): seq<Step> {
    if moves == [] then []
    else
      var before, last := StepsOf(moves[..|moves| - 1], repo, number), moves[|moves| - 1];
      if last.repo == repo && last.number == number then before + [last.step] else before
  }

  /** In every interleaving over all pull requests, each is in the state its own steps alone put it in. */
  lemma {:induction false} PullRequestsIndependent(moves: seq<Move>, repo: string, number: nat)
    ensures PrAt(Everywhere(moves), repo, number) == After(StepsOf(moves, repo, number))
  {
    hide Apply, Key;
    if moves != [] {
      var last := moves[|moves| - 1];
      PullRequestsIndependent(moves[..|moves| - 1], repo, number);
      AfterPlus(StepsOf(moves[..|moves| - 1], repo, number), last.step);
      if Key(last.repo, last.number) == Key(repo, number) {
        KeyInjective(last.repo, last.number, repo, number);
      }
    }
  }

  /** The counters of the object are those of the machines. */
  ghost predicate Tracks(counts: map<string, nat>, all: map<string, Pr>) {
    forall repo, number: nat :: CountIn(counts, Key(repo, number)) == PrAt(all, repo, number).count
  }

  /**
    The locked parts are the machine's: a task goes on after `UnderLimit` exactly if its
    machine begins one, what `Increment` does is the step of an answer, and no other
    step moves a counter.
   */
  lemma LockedPartsAreSteps(counts: map<string, nat>, all: map<string, Pr>, repo: string, number: nat, step: Step)
    requires Tracks(counts, all)
    ensures CountIn(counts, Key(repo, number)) < MAX_COMMENTS_PER_PR
       <==> Apply(PrAt(all, repo, number), Begin) != PrAt(all, repo, number)
    ensures var key := Key(repo, number);
            var counted := step == Answer && PrAt(all, repo, number).accepted > 0;
            Tracks(if counted then counts[key := CountIn(counts, key) + 1] else counts,
                   Moved(all, Move(repo, number, step)))
  {
    hide Key;
    var key, p := Key(repo, number), PrAt(all, repo, number);
    assert CountIn(counts, key) == p.count;
    var next := if step == Answer && p.accepted > 0 then counts[key := CountIn(counts, key) + 1] else counts;
    var moved := Moved(all, Move(repo, number, step));
    assert moved == all[key := Apply(p, step)];
    assert CountIn(next, key) == Apply(p, step).count;
    hide Apply;
    forall r, n: nat
      ensures CountIn(next, Key(r, n)) == PrAt(moved, r, n).count
    {
      assert CountIn(counts, Key(r, n)) == PrAt(all, r, n).count;
    }
  }

  // ---------------------------------------------------------------- how many comments are posted

  /** Every comment made was counted, is about to be answered, or had its answer lost. */
  ghost predicate Accounted(p: Pr) {
    p.posted == p.count + p.accepted + p.lost
  }

  /**
    With at most `k` tasks at once, the cap is overrun by at most `k - 1` comments, and
    one more for each answer that was lost.
   */
  lemma {:induction false} PostedBounded(steps: seq<Step>, k: nat)
    requires k >= 1 && AtMost(steps, k)
    ensures Accounted(After(steps))
    ensures After(steps).count + After(steps).InFlight() <= MAX_COMMENTS_PER_PR + k - 1
    ensures After(steps).posted <= MAX_COMMENTS_PER_PR + k - 1 + After(steps).lost
  {
    if steps != [] {
      var before := steps[..|steps| - 1];
      PostedBounded(before, k);
      BoundKept(After(before), steps[|steps| - 1], k);
    }
  }

  lemma BoundKept(p: Pr, step: Step, k: nat)
    requires Accounted(p) && p.count + p.InFlight() <= MAX_COMMENTS_PER_PR + k - 1
    requires Apply(p, step).InFlight() <= k
    ensures var q := Apply(p, step); Accounted(q) && q.count + q.InFlight() <= MAX_COMMENTS_PER_PR + k - 1
  {
  }

  /** And a run can go that far, whatever the number of tasks at once and of answers lost. */
  lemma BoundReached(k: nat, lost: nat) returns (steps: seq<Step>)
    requires k >= 1
    ensures AtMost(steps, k) && After(steps).lost == lost
    ensures After(steps).posted == MAX_COMMENTS_PER_PR + k - 1 + lost
  {
    steps := LostOneByOne(k, lost);
    steps := Further(steps, k, MAX_COMMENTS_PER_PR - 1);
    steps := Together(steps, k, k);
    steps := AcceptedAll(steps, k, k);
  }

  /**
    The documented cap on posted comments holds in every run with at most `k` tasks at
    once and at most `lost` answers lost if and only if tasks never overlap and every
    answer arrives.
   */
  lemma CapExactIff(k: nat, lost: nat)
    requires k >= 1
    ensures (forall steps :: AtMost(steps, k) && After(steps).lost <= lost
                             ==> After(steps).posted <= MAX_COMMENTS_PER_PR)
       <==> k == 1 && lost == 0
  {
    hide After;
    if k == 1 && lost == 0 {
      forall steps | AtMost(steps, k) && After(steps).lost <= lost
        ensures After(steps).posted <= MAX_COMMENTS_PER_PR
      {
        PostedBounded(steps, k);
      }
    } else {
      var steps := BoundReached(k, lost);
    }
  }

  /** With answers lost there is no bound: one task after the other, any number of comments, none counted. */
  lemma LostAnswersUnbounded(n: nat) returns (steps: seq<Step>)
    ensures AtMost(steps, 1) && After(steps) == Pr(0, 0, 0, n, n)
  {
    steps := LostOneByOne(1, n);
  }

  // ---------------------------------------------------------------- building such runs

  lemma OneMore(steps: seq<Step>, step: Step, k: nat)
    requires AtMost(steps, k) && Apply(After(steps), step).InFlight() <= k
    ensures AtMost(steps + [step], k) && After(steps + [step]) == Apply(After(steps), step)
  {
    hide Apply, Pr.InFlight;
    AfterPlus(steps, step);
    assert (steps + [step])[..|steps|] == steps;
  }

  /** `n` tasks one after the other, each with its comment made and its answer lost. */
  lemma {:induction false} LostOneByOne(k: nat, n: nat) returns (steps: seq<Step>)
    requires k >= 1
    ensures AtMost(steps, k) && After(steps) == Pr(0, 0, 0, n, n)
  {
    hide After, AtMost;
    if n == 0 {
      steps := [];
      StartsQuiet(k);
    } else {
      steps := LostOneByOne(k, n - 1);
      steps := Whole(steps, k, Lose);
    }
  }

  lemma StartsQuiet(k: nat)
    ensures AtMost([], k) && After([]) == UNSEEN
  {
  }

  /** One task from begin to end, with nothing else under way. */
  lemma Whole(before: seq<Step>, k: nat, last: Step) returns (steps: seq<Step>)
    requires k >= 1 && AtMost(before, k) && (last == Lose || last == Answer)
    requires After(before).InFlight() == 0 && After(before).count < MAX_COMMENTS_PER_PR
    ensures AtMost(steps, k)
    ensures var p := After(before);
            After(steps) == if last == Lose then p.(posted := p.posted + 1, lost := p.lost + 1)
                            else p.(posted := p.posted + 1, count := p.count + 1)
  {
    hide After, AtMost;
    OneMore(before, Begin, k);
    OneMore(before + [Begin], Accept, k);
    OneMore(before + [Begin] + [Accept], last, k);
    steps := before + [Begin] + [Accept] + [last];
  }

  /** `n` more comments, made and counted one by one. */
  lemma {:induction false} Further(before: seq<Step>, k: nat, n: nat) returns (steps: seq<Step>)
    requires k >= 1 && AtMost(before, k) && After(before).InFlight() == 0
    requires After(before).count + n <= MAX_COMMENTS_PER_PR
    ensures AtMost(steps, k)
    ensures var p := After(before); After(steps) == p.(posted := p.posted + n, count := p.count + n)
  {
    hide After, AtMost;
    if n == 0 {
      steps := before;
    } else {
      steps := Further(before, k, n - 1);
      steps := Whole(steps, k, Answer);
    }
  }

  lemma {:induction false} Together(before: seq<Step>, k: nat, n: nat) returns (steps: seq<Step>)
    requires n <= k && AtMost(before, k)
    requires After(before).InFlight() == 0 && After(before).count < MAX_COMMENTS_PER_PR
    ensures AtMost(steps, k) && After(steps) == After(before).(waiting := n)
  {
    hide After, AtMost;
    if n == 0 {
      steps := before;
    } else {
      steps := Together(before, k, n - 1);
      OneMore(steps, Begin, k);
      steps := steps + [Begin];
    }
  }

  lemma {:induction false} AcceptedAll(before: seq<Step>, k: nat, n: nat) returns (steps: seq<Step>)
    requires AtMost(before, k) && n <= After(before).waiting && After(before).InFlight() <= k
    ensures AtMost(steps, k)
    ensures var p := After(before);
            After(steps) == p.(waiting := p.waiting - n, accepted := p.accepted + n, posted := p.posted + n)
  {
    hide After, AtMost;
    if n == 0 {
      steps := before;
    } else {
      steps := AcceptedAll(before, k, n - 1);
      OneMore(steps, Accept, k);
      steps := steps + [Accept];
    }
  }
}
