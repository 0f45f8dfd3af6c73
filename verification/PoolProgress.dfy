/**
 What a worker does with the resources it takes: it holds a request, then both, then the response, then
 nothing, in every interleaving, and it can always finish and leave the pools as they were.
 */
module PoolProgress {
  import opened Common
  import opened Pool
  import opened PoolMachine

  // ----- the order of the steps

  /** How far a worker is: nothing held, a request, both, a response. */
  function Phase<T>(w: Worker<T>): nat {
    match (RequestOf(w), ResponseOf(w))
    case (None, None) => 0
    case (Some(_), None) => 1
    case (Some(_), Some(_)) => 2
    case (None, Some(_)) => 3
  }

  /** What one step does to the worker that takes it. */
  ghost predicate MovesOn<T>(s: State<T>, t: State<T>, k: nat)
    requires k < |s.workers| == |t.workers|
  {
    var q, p := RequestOf(s.workers[k]), ResponseOf(s.workers[k]);
    var q', p' := RequestOf(t.workers[k]), ResponseOf(t.workers[k]);
    match Phase(s.workers[k])
    case 0 => q'.Some? && q' in s.requests && p'.None?
    case 1 => q' == q && p'.Some? && p' in s.responses
    case 2 => q'.None? && q in t.requests && p' == p
    case _ => q'.None? && p'.None? && p in t.responses
  }

  lemma StepMovesOn<T>(s: State<T>, k: nat)
    requires k < |s.workers| && !s.workers[k].Crashed? && !Step(s, k).workers[k].Crashed?
    ensures MovesOn(s, Step(s, k), k)
    ensures Phase(Step(s, k).workers[k]) == (Phase(s.workers[k]) + 1) % 4
    ensures forall j :: 0 <= j < |s.workers| && j != k ==> Step(s, k).workers[j] == s.workers[j]
  {
    var t := Step(s, k);
    match s.workers[k]
    case Idle => assert s.requests[FirstFull(s.requests)] in s.requests;
    case HasRequest(_) => assert s.responses[FirstFull(s.responses)] in s.responses;
    case HasBoth(_, _) => assert t.requests[FirstEmpty(s.requests)] in t.requests;
    case HasResponse(_) => assert t.responses[FirstEmpty(s.responses)] in t.responses;
  }

  lemma NoSuchWorker<T>(s: State<T>, k: nat)
    requires k >= |s.workers|
    ensures Step(s, k) == s
  {
  }

  /** How often a worker is scheduled. */
  function Turns(schedule: seq<nat>, k: nat): nat {
    if schedule == [] then 0
    else Turns(schedule[..|schedule| - 1], k) + if schedule[|schedule| - 1] == k then 1 else 0
  }

  lemma NextTurn(n: nat)
    ensures (n % 4 + 1) % 4 == (n + 1) % 4
  {
  }

  /** In every interleaving without a crash, a worker's phase is the number of its turns, modulo four. */
  lemma {:induction false} PhaseCounts<T>(requests: seq<T>, responses: seq<T>, nworkers: nat, schedule: seq<nat>, k: nat)
    requires k < nworkers && NoCrash(Run(Start(requests, responses, nworkers), schedule))
    ensures Phase(Run(Start(requests, responses, nworkers), schedule).workers[k]) == Turns(schedule, k) % 4
  {
    if schedule != [] {
      var before, j := schedule[..|schedule| - 1], schedule[|schedule| - 1];
      var s := Run(Start(requests, responses, nworkers), before);
      CrashStays(s, j);
      PhaseCounts(requests, responses, nworkers, before, k);
      hide Phase, Step, MovesOn;
      if j < nworkers { StepMovesOn(s, j); } else { NoSuchWorker(s, j); }
      NextTurn(Turns(before, k));
    }
  }

  // ----- one connection, undisturbed

  ghost predicate HasSome<T>(s: Slots<T>) {
    exists i :: 0 <= i < |s| && s[i].Some?
  }

  lemma StepOne<T>(s: State<T>, k: nat)
    ensures Run(s, [k]) == Step(s, k)
  {
    assert [k][..0] == [];
  }

  lemma {:induction false} RunAppend<T>(s: State<T>, a: seq<nat>, b: seq<nat>)
    ensures Run(s, a + b) == Run(Run(s, a), b)
    decreases |b|
  {
    if b == [] {
      assert a + b == a;
    } else {
      var k := |b| - 1;
      assert (a + b)[..|a + b| - 1] == a + b[..k];
      RunAppend(s, a, b[..k]);
    }
  }

  lemma GetWorks<T>(s: State<T>, k: nat)
    requires k < |s.workers|
    ensures s.workers[k].Idle? ==> (!Step(s, k).workers[k].Crashed? <==> HasSome(s.requests))
    ensures s.workers[k].HasRequest? ==> (!Step(s, k).workers[k].Crashed? <==> HasSome(s.responses))
  {
    if FirstFull(s.requests) < |s.requests| { assert s.requests[FirstFull(s.requests)].Some?; }
    if FirstFull(s.responses) < |s.responses| { assert s.responses[FirstFull(s.responses)].Some?; }
  }

  lemma TakeLeavesGap<T>(s: Slots<T>)
    requires HasSome(s)
    ensures None in Take(s).1
  {
    var i := FirstFull(s);
    var j :| 0 <= j < |s| && s[j].Some?;
    assert Take(s).1[i] == None;
  }

  lemma PutWorks<T>(s: Slots<T>, r: T)
    requires None in s
    ensures Put(s, r).Some?
  {
    var i :| 0 <= i < |s| && s[i] == None;
  }

  /** The four steps of serviceConnection by one idle worker. */
  function Turn<T>(s: State<T>, k: nat): State<T> {
    Step(Step(Step(Step(s, k), k), k), k)
  }

  lemma TurnIsRun<T>(s: State<T>, k: nat)
    ensures Run(s, [k, k, k, k]) == Turn(s, k)
  {
    hide Step, Run;
    assert [k, k] == [k] + [k] && [k, k, k] == [k, k] + [k] && [k, k, k, k] == [k, k, k] + [k];
    RunAppend(s, [k], [k]);
    RunAppend(s, [k, k], [k]);
    RunAppend(s, [k, k, k], [k]);
    StepOne(s, k);
    StepOne(Step(s, k), k);
    StepOne(Step(Step(s, k), k), k);
    StepOne(Step(Step(Step(s, k), k), k), k);
  }

  lemma TurnWorks<T>(s: State<T>, k: nat)
    requires k < |s.workers| && s.workers[k].Idle? && HasSome(s.requests) && HasSome(s.responses)
    ensures Turn(s, k).workers == s.workers
  {
    TakeLeavesGap(s.requests);
    TakeLeavesGap(s.responses);
    var (q, requests) := Take(s.requests);
    var (p, responses) := Take(s.responses);
    PutWorks(requests, q.value);
    PutWorks(responses, p.value);
    var s1, s2 := Step(s, k), Step(Step(s, k), k);
    assert s1 == State(requests, s.responses, s.workers[k := HasRequest(q.value)]);
    assert s2 == State(requests, responses, s.workers[k := HasBoth(q.value, p.value)]);
    var s3 := Step(s2, k);
    assert s3 == State(Put(requests, q.value).value, responses, s.workers[k := HasResponse(p.value)]);
    assert Step(s3, k).workers == s.workers[k := Idle];
  }

  lemma TurnFails<T>(s: State<T>, k: nat)
    requires k < |s.workers| && s.workers[k].Idle? && !(HasSome(s.requests) && HasSome(s.responses))
    ensures Turn(s, k).workers[k].Crashed?
  {
    GetWorks(s, k);
    if HasSome(s.requests) {
      StepMovesOn(s, k);
      assert Step(s, k).responses == s.responses;
      GetWorks(Step(s, k), k);
    }
  }

  lemma Cancel<T>(a: multiset<T>, b: multiset<T>, c: multiset<T>)
    requires a + c == b + c
    ensures a == b
  {
    forall x ensures a[x] == b[x] { assert (a + c)[x] == (b + c)[x]; }
  }

  /** If no worker holds anything else than before, the pools hold what they held. */
  lemma SamePools<T>(s: State<T>, t: State<T>)
    requires SameTotals(s, t) && s.workers == t.workers
    ensures multiset(t.requests) == multiset(s.requests) && multiset(t.responses) == multiset(s.responses)
  {
    Cancel(multiset(t.requests), multiset(s.requests), multiset(HeldRequests(s.workers)));
    Cancel(multiset(t.responses), multiset(s.responses), multiset(HeldResponses(s.workers)));
  }

  /**
   Four steps of an idle worker with no other between them: they succeed exactly if each pool has a
   resource, and then every worker is as before, and each pool has what it had.
   */
  lemma FullTurn<T>(s: State<T>, k: nat)
    requires NoCrash(s) && k < |s.workers| && s.workers[k].Idle?
    ensures var t := Run(s, [k, k, k, k]);
            && (NoCrash(t) <==> HasSome(s.requests) && HasSome(s.responses))
            && (NoCrash(t) ==> t.workers == s.workers)
            && (NoCrash(t) ==> multiset(t.requests) == multiset(s.requests) && multiset(t.responses) == multiset(s.responses))
  {
    TurnIsRun(s, k);
    hide Run, Turn, HasSome, SameTotals;
    if HasSome(s.requests) && HasSome(s.responses) {
      TurnWorks(s, k);
      Conservation(s, [k, k, k, k]);
      SamePools(s, Turn(s, k));
    } else {
      TurnFails(s, k);
    }
  }

  // ----- every run can be brought to rest

  ghost predicate AllIdle<T>(s: State<T>) {
    forall k :: 0 <= k < |s.workers| ==> s.workers[k].Idle?
  }

  /** A worker that can take its next step. */
  ghost predicate CanStep<T>(s: State<T>, k: nat) {
    k < |s.workers| && (s.workers[k].HasBoth? || s.workers[k].HasResponse? || (s.workers[k].HasRequest? && HasSome(s.responses)))
  }

  lemma NextStep<T>(requests: seq<T>, responses: seq<T>, nworkers: nat, schedule: seq<nat>, k: nat)
    requires NoCrash(Run(Start(requests, responses, nworkers), schedule))
    requires CanStep(Run(Start(requests, responses, nworkers), schedule), k)
    ensures var s := Run(Start(requests, responses, nworkers), schedule);
            var t := Run(Start(requests, responses, nworkers), schedule + [k]);
            && NoCrash(t) && Phase(t.workers[k]) == (Phase(s.workers[k]) + 1) % 4
            && forall j :: 0 <= j < |s.workers| && j != k ==> t.workers[j] == s.workers[j]
  {
    var s0 := Start(requests, responses, nworkers);
    var s := Run(s0, schedule);
    RunAppend(s0, schedule, [k]);
    StepOne(s, k);
    assert |s.workers| == nworkers;
    hide Run, Start;
    GetWorks(s, k);
    RecycleNeverDies(requests, responses, nworkers, schedule, k);
    StepMovesOn(s, k);
  }

  /** A worker on its way can be brought back to idle, with no other worker moving. */
  lemma {:induction false} FinishOne<T>(requests: seq<T>, responses: seq<T>, nworkers: nat, schedule: seq<nat>, k: nat)
    returns (more: seq<nat>)
    requires NoCrash(Run(Start(requests, responses, nworkers), schedule))
    requires CanStep(Run(Start(requests, responses, nworkers), schedule), k)
    ensures var s := Run(Start(requests, responses, nworkers), schedule);
            var t := Run(Start(requests, responses, nworkers), schedule + more);
            && NoCrash(t) && t.workers[k].Idle?
            && forall j :: 0 <= j < |s.workers| && j != k ==> t.workers[j] == s.workers[j]
    decreases 4 - Phase(Run(Start(requests, responses, nworkers), schedule).workers[k])
  {
    NextStep(requests, responses, nworkers, schedule, k);
    var t := Run(Start(requests, responses, nworkers), schedule + [k]);
    if Phase(t.workers[k]) == 0 {
      more := [k];
    } else {
      var rest := FinishOne(requests, responses, nworkers, schedule + [k], k);
      more := [k] + rest;
      Assoc(schedule, [k], rest);
    }
  }

  /** How many workers are on their way. */
  ghost function Busy<T>(ws: seq<Worker<T>>): nat {
    if ws == [] then 0 else (if ws[0].Idle? then 0 else 1) + Busy(ws[1..])
  }

  lemma {:induction false} OneLessBusy<T>(ws: seq<Worker<T>>, us: seq<Worker<T>>, k: nat)
    requires |ws| == |us| && k < |ws| && !ws[k].Idle? && us[k].Idle?
    requires forall j :: 0 <= j < |ws| && j != k ==> us[j] == ws[j]
    ensures Busy(us) == Busy(ws) - 1
  {
    if k == 0 {
      assert us[1..] == ws[1..];
    } else {
      OneLessBusy(ws[1..], us[1..], k - 1);
    }
  }

  /** No worker waits for a response that does not exist. */
  ghost predicate NoneStuck<T>(s: State<T>, responses: seq<T>) {
    responses != [] || forall k :: 0 <= k < |s.workers| ==> !s.workers[k].HasRequest?
  }

  /** If someone is on the way and nobody is stuck, someone can step. */
  lemma SomeoneSteps<T>(requests: seq<T>, responses: seq<T>, nworkers: nat, schedule: seq<nat>) returns (k: nat)
    requires NoCrash(Run(Start(requests, responses, nworkers), schedule))
    requires var s := Run(Start(requests, responses, nworkers), schedule); !AllIdle(s) && NoneStuck(s, responses)
    ensures CanStep(Run(Start(requests, responses, nworkers), schedule), k)
  {
    var s := Run(Start(requests, responses, nworkers), schedule);
    if j :| 0 <= j < |s.workers| && (s.workers[j].HasBoth? || s.workers[j].HasResponse?) {
      k := j;
    } else {
      k :| 0 <= k < |s.workers| && !s.workers[k].Idle?;
      EmptySlotsAreHeld(requests, responses, nworkers, schedule);
      CountNone(HeldResponses(s.workers));
      assert forall j :: 0 <= j < |s.workers| ==> ResponseOf(s.workers[j]).None?;
      assert multiset(s.responses)[None] == 0;
      assert None !in s.responses;
      assert s.responses[0] in s.responses;
    }
  }

  lemma {:induction false} AllReturn<T>(requests: seq<T>, responses: seq<T>, nworkers: nat, schedule: seq<nat>)
    returns (more: seq<nat>)
    requires NoCrash(Run(Start(requests, responses, nworkers), schedule))
    requires NoneStuck(Run(Start(requests, responses, nworkers), schedule), responses)
    ensures var t := Run(Start(requests, responses, nworkers), schedule + more); NoCrash(t) && AllIdle(t)
    decreases Busy(Run(Start(requests, responses, nworkers), schedule).workers)
  {
    var s := Run(Start(requests, responses, nworkers), schedule);
    if AllIdle(s) {
      more := [];
      assert schedule + [] == schedule;
    } else {
      var k := SomeoneSteps(requests, responses, nworkers, schedule);
      var first := FinishOne(requests, responses, nworkers, schedule, k);
      var t := Run(Start(requests, responses, nworkers), schedule + first);
      OneLessBusy(s.workers, t.workers, k);
      var rest := AllReturn(requests, responses, nworkers, schedule + first);
      more := first + rest;
      Assoc(schedule, first, rest);
    }
  }

  /** At rest, each pool has what it had at the start. */
  lemma RestIsFull<T>(requests: seq<T>, responses: seq<T>, nworkers: nat, schedule: seq<nat>)
    requires var s := Run(Start(requests, responses, nworkers), schedule); NoCrash(s) && AllIdle(s)
    ensures var s := Run(Start(requests, responses, nworkers), schedule);
            multiset(s.requests) == multiset(Full(requests)) && multiset(s.responses) == multiset(Full(responses))
  {
    var s0 := Start(requests, responses, nworkers);
    var s := Run(s0, schedule);
    Conservation(s0, schedule);
    assert s.workers == s0.workers;
    hide SameTotals, Run;
    SamePools(s0, s);
  }

  /** A worker that waits for a response that does not exist never gets back. */
  lemma {:induction false} StuckForever<T>(requests: seq<T>, nworkers: nat, schedule: seq<nat>, more: seq<nat>, k: nat)
    requires k < nworkers && Run(Start(requests, [], nworkers), schedule).workers[k].HasRequest?
    ensures !Run(Start(requests, [], nworkers), schedule + more).workers[k].Idle?
    ensures var w := Run(Start(requests, [], nworkers), schedule + more).workers[k]; w.HasRequest? || w.Crashed?
    decreases |more|
  {
    if more == [] {
      assert schedule + more == schedule;
    } else {
      var n := |more| - 1;
      assert schedule + more == schedule + more[..n] + [more[n]];
      StuckForever(requests, nworkers, schedule, more[..n], k);
      var s := Run(Start(requests, [], nworkers), schedule + more[..n]);
      RunAppend(Start(requests, [], nworkers), schedule + more[..n], [more[n]]);
      StepOne(s, more[n]);
    }
  }

  /**
   From every state reached without a crash there is a schedule that brings all workers to rest, with both
   pools holding what they held at the start, exactly unless some worker waits for a response that was
   never there.
   */
  lemma ReturnsExactly<T>(requests: seq<T>, responses: seq<T>, nworkers: nat, schedule: seq<nat>)
    requires NoCrash(Run(Start(requests, responses, nworkers), schedule))
    ensures (exists more: seq<nat> :: AtRest(requests, responses, Run(Start(requests, responses, nworkers), schedule + more)))
            <==> NoneStuck(Run(Start(requests, responses, nworkers), schedule), responses)
  {
    var s := Run(Start(requests, responses, nworkers), schedule);
    if NoneStuck(s, responses) {
      var more := AllReturn(requests, responses, nworkers, schedule);
      RestIsFull(requests, responses, nworkers, schedule + more);
      assert AtRest(requests, responses, Run(Start(requests, responses, nworkers), schedule + more));
    } else {
      var k :| 0 <= k < |s.workers| && s.workers[k].HasRequest?;
      forall more: seq<nat> ensures !AtRest(requests, responses, Run(Start(requests, responses, nworkers), schedule + more)) {
        StuckForever(requests, nworkers, schedule, more, k);
      }
    }
  }

  ghost predicate AtRest<T>(requests: seq<T>, responses: seq<T>, s: State<T>) {
    && NoCrash(s) && AllIdle(s)
    && multiset(s.requests) == multiset(Full(requests)) && multiset(s.responses) == multiset(Full(responses))
  }
}
