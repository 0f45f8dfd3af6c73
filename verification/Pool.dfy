/** The resource pool: an array of slots, each empty or holding one resource, under a mutex. */
module Pool {
  import opened Common

  type Slots<T> = seq<Option<T>>

  /** The first slot that holds a resource; the number of slots when there is none. */
  function FirstFull<T>(s: Slots<T>): (i: nat)
    ensures i <= |s| && (i < |s| ==> s[i].Some?)
    ensures forall k :: 0 <= k < i ==> s[k].None?
  {
    if s == [] || s[0].Some? then 0 else 1 + FirstFull(s[1..])
  }

  function FirstEmpty<T>(s: Slots<T>): (i: nat)
    ensures i <= |s| && (i < |s| ==> s[i].None?)
    ensures forall k :: 0 <= k < i ==> s[k].Some?
  {
    if s == [] || s[0].None? then 0 else 1 + FirstEmpty(s[1..])
  }

  /** The critical section of pool_get. */
  function Take<T>(s: Slots<T>): (Option<T>, Slots<T>) {
    var i := FirstFull(s);
    if i < |s| then (s[i], s[i := None]) else (None, s)
  }

  /** The critical section of pool_recycle; nothing where the C process dies. */
  function Put<T>(s: Slots<T>, r: T): Option<Slots<T>> {
    var i := FirstEmpty(s);
    if i < |s| then Some(s[i := Some(r)]) else None
  }

  class ResourcePool<T> {
    const pdata: array<Option<T>>
    var nelem: nat

    ghost predicate Valid()
      reads this
    {
      nelem <= pdata.Length
    }

    ghost function Contents(): Slots<T>
      requires Valid()
      reads this, pdata
    {
      pdata[..nelem]
    }

    constructor (size: nat)
      requires size > 0
      ensures Valid() && Contents() == [] && pdata.Length == size && fresh(pdata)
    {
      pdata := new Option<T>[size](_ => None);
      nelem := 0;
    }

    method Add(resource: T)
      requires Valid() && nelem < pdata.Length
      modifies this, pdata
      ensures Valid() && Contents() == old(Contents()) + [Some(resource)]
    {
      pdata[nelem] := Some(resource);
      nelem := nelem + 1;
    }

    /** http_server_alloc_request_pool and its twin: one resource for every worker thread. */
    method Fill(resources: seq<T>)
      requires Valid() && nelem == 0 && |resources| == pdata.Length
      modifies this, pdata
      ensures Valid() && nelem == pdata.Length && Contents() == Full(resources)
    {
      for i := 0 to |resources|
        invariant Valid() && nelem == i && Contents() == Full(resources[..i])
      {
        Add(resources[i]);
        assert resources[..i + 1] == resources[..i] + [resources[i]];
      }
      assert resources[..|resources|] == resources;
    }

    /** pool_get: takes the first resource there is. */
    method Get() returns (r: Option<T>)
      requires Valid()
      modifies pdata
      ensures (r, Contents()) == Take(old(Contents()))
    {
      ghost var s := Contents();
      var i := 0;
      while i < nelem && pdata[i].None?
        invariant 0 <= i <= nelem
        invariant forall k :: 0 <= k < i ==> s[k].None?
      {
        i := i + 1;
      }
      assert i == FirstFull(s);
      if i == nelem { return None; }
      r := pdata[i];
      pdata[i] := None;
    }

    /** pool_recycle: fills the first empty slot; false where the C process dies. */
    method Recycle(resource: T) returns (ok: bool)
      requires Valid()
      modifies pdata
      ensures var next := Put(old(Contents()), resource);
              ok == next.Some? && Contents() == if ok then next.value else old(Contents())
    {
      ghost var s := Contents();
      var i := 0;
      while i < nelem && pdata[i].Some?
        invariant 0 <= i <= nelem
        invariant forall k :: 0 <= k < i ==> s[k].Some?
      {
        i := i + 1;
      }
      assert i == FirstEmpty(s);
      if i == nelem { return false; }
      pdata[i] := Some(resource);
      return true;
    }
  }

  function Full<T>(resources: seq<T>): (s: Slots<T>)
    ensures |s| == |resources| && forall i :: 0 <= i < |s| ==> s[i] == Some(resources[i])
  {
    seq(|resources|, i requires 0 <= i < |resources| => Some(resources[i]))
  }
}

/**
 Worker threads that share the request and response pools. Each pool call is atomic under its
 mutex, so an interleaving is a schedule: the worker that takes each next step.
 */
module PoolMachine {
  import opened Common
  import opened Pool

  /** Where a worker stands in serviceConnection. It is Crashed when a call aborted the process. */
  datatype Worker<T> =
    | Idle
    | HasRequest(request: T)
    | HasBoth(request: T, response: T)
    | HasResponse(response: T)
    | Crashed

  datatype State<T> = State(requests: Slots<T>, responses: Slots<T>, workers: seq<Worker<T>>)

  function RequestOf<T>(w: Worker<T>): Option<T> {
    if w.HasRequest? || w.HasBoth? then Some(w.request) else None
  }

  function ResponseOf<T>(w: Worker<T>): Option<T> {
    if w.HasBoth? || w.HasResponse? then Some(w.response) else None
  }

  function HeldRequests<T>(ws: seq<Worker<T>>): (s: Slots<T>)
    ensures |s| == |ws| && forall i :: 0 <= i < |s| ==> s[i] == RequestOf(ws[i])
  {
    seq(|ws|, i requires 0 <= i < |ws| => RequestOf(ws[i]))
  }

  function HeldResponses<T>(ws: seq<Worker<T>>): (s: Slots<T>)
    ensures |s| == |ws| && forall i :: 0 <= i < |s| ==> s[i] == ResponseOf(ws[i])
  {
    seq(|ws|, i requires 0 <= i < |ws| => ResponseOf(ws[i]))
  }

  /** One step of worker `k`: get request, get response, recycle request, recycle response. */
  function Step<T>(s: State<T>, k: nat): (r: State<T>)
    ensures |r.workers| == |s.workers| && |r.requests| == |s.requests| && |r.responses| == |s.responses|
  {
    if k >= |s.workers| then s
    else
      match s.workers[k]
      case Idle =>
        var (r, pool) := Take(s.requests);
        s.(requests := pool, workers := s.workers[k := if r.Some? then HasRequest(r.value) else Crashed])
      case HasRequest(q) =>
        var (r, pool) := Take(s.responses);
        s.(responses := pool, workers := s.workers[k := if r.Some? then HasBoth(q, r.value) else Crashed])
      case HasBoth(q, p) =>
        var pool := Put(s.requests, q);
        if pool.Some? then s.(requests := pool.value, workers := s.workers[k := HasResponse(p)])
        else s.(workers := s.workers[k := Crashed])
      case HasResponse(p) =>
        var pool := Put(s.responses, p);
        if pool.Some? then s.(responses := pool.value, workers := s.workers[k := Idle])
        else s.(workers := s.workers[k := Crashed])
      case Crashed => s
  }

  /** The state after a schedule. */
  function Run<T>(s: State<T>, schedule: seq<nat>): (r: State<T>)
    ensures |r.workers| == |s.workers| && |r.requests| == |s.requests| && |r.responses| == |s.responses|
  {
    if schedule == [] then s else Step(Run(s, schedule[..|schedule| - 1]), schedule[|schedule| - 1])
  }

  function Start<T>(requests: seq<T>, responses: seq<T>, nworkers: nat): State<T> {
    State(Full(requests), Full(responses), seq(nworkers, _ => Idle))
  }

  ghost predicate NoCrash<T>(s: State<T>) {
    forall k :: 0 <= k < |s.workers| ==> !s.workers[k].Crashed?
  }

  // ----- a step only moves a resource between a slot and a worker

  /** Pooled and held contents together, empty places included. */
  ghost function AllRequests<T>(s: State<T>): multiset<Option<T>> {
    multiset(s.requests) + multiset(HeldRequests(s.workers))
  }

  ghost function AllResponses<T>(s: State<T>): multiset<Option<T>> {
    multiset(s.responses) + multiset(HeldResponses(s.workers))
  }

  lemma Exchanged<T>(a: Slots<T>, i: nat, b: Slots<T>, j: nat)
    requires i < |a| && j < |b|
    ensures multiset(a[i := b[j]]) + multiset(b[j := a[i]]) == multiset(a) + multiset(b)
  {
  }

  lemma HeldUpdate<T>(ws: seq<Worker<T>>, k: nat, w: Worker<T>)
    requires k < |ws|
    ensures HeldRequests(ws[k := w]) == HeldRequests(ws)[k := RequestOf(w)]
    ensures HeldResponses(ws[k := w]) == HeldResponses(ws)[k := ResponseOf(w)]
  {
  }

  ghost predicate SameTotals<T>(s: State<T>, t: State<T>) {
    AllRequests(s) == AllRequests(t) && AllResponses(s) == AllResponses(t)
  }

  /** A step that does not crash its worker keeps the totals of both pools. */
  lemma StepConserves<T>(s: State<T>, k: nat)
    requires k < |s.workers| && !Step(s, k).workers[k].Crashed?
    ensures SameTotals(s, Step(s, k))
  {
    var t := Step(s, k);
    var w := t.workers[k];
    HeldUpdate(s.workers, k, w);
    var hq, hp := HeldRequests(s.workers), HeldResponses(s.workers);
    match s.workers[k]
    case Idle => 
      Exchanged(s.requests, FirstFull(s.requests), hq, k);
      assert hp[k := hp[k]] == hp;
    case HasRequest(_) =>
      Exchanged(s.responses, FirstFull(s.responses), hp, k);
      assert hq[k := hq[k]] == hq;
    case HasBoth(_, _) =>
      Exchanged(s.requests, FirstEmpty(s.requests), hq, k);
      assert hp[k := hp[k]] == hp;
    case HasResponse(_) =>
      Exchanged(s.responses, FirstEmpty(s.responses), hp, k);
      assert hq[k := hq[k]] == hq;
  }

  lemma CrashStays<T>(s: State<T>, k: nat)
    requires NoCrash(Step(s, k))
    ensures NoCrash(s)
  {
    forall j | 0 <= j < |s.workers| ensures !s.workers[j].Crashed? {
      assert !Step(s, k).workers[j].Crashed?;
    }
  }

  /** Conservation: in every run that has not crashed, pooled plus held is what the run started with. */
  lemma {:induction false} Conservation<T>(s0: State<T>, schedule: seq<nat>)
    requires NoCrash(Run(s0, schedule))
    ensures SameTotals(s0, Run(s0, schedule))
  {
    if schedule != [] {
      var before, k := schedule[..|schedule| - 1], schedule[|schedule| - 1];
      var s := Run(s0, before);
      CrashStays(s, k);
      Conservation(s0, before);
      if k < |s.workers| { StepConserves(s, k); }
    }
  }

  // ----- counting

  lemma {:induction false} CountNone<T>(s: Slots<T>)
    ensures multiset(s)[None] <= |s|
    ensures multiset(s)[None] == |s| <==> forall i :: 0 <= i < |s| ==> s[i].None?
  {
    if s != [] {
      CountNone(s[1..]);
      assert s == [s[0]] + s[1..];
      assert multiset(s) == multiset{s[0]} + multiset(s[1..]);
      assert forall i :: 0 < i < |s| ==> s[i] == s[1..][i - 1];
    }
  }

  /** How many places of `s` are taken. */
  ghost function Taken<T>(s: Slots<T>): (n: nat) {
    CountNone(s);
    |s| - multiset(s)[None]
  }

  lemma StartTotals<T>(requests: seq<T>, responses: seq<T>, nworkers: nat)
    ensures var s0 := Start(requests, responses, nworkers);
            AllRequests(s0)[None] == nworkers && AllResponses(s0)[None] == nworkers
  {
    var s0 := Start(requests, responses, nworkers);
    CountNone(HeldRequests(s0.workers));
    CountNone(HeldResponses(s0.workers));
    assert None !in s0.requests && None !in s0.responses;
  }

  /** In every run that has not crashed, the empty slots of a pool are as many as its held resources. */
  lemma EmptySlotsAreHeld<T>(requests: seq<T>, responses: seq<T>, nworkers: nat, schedule: seq<nat>)
    requires NoCrash(Run(Start(requests, responses, nworkers), schedule))
    ensures var s := Run(Start(requests, responses, nworkers), schedule);
            multiset(s.requests)[None] == Taken(HeldRequests(s.workers)) &&
            multiset(s.responses)[None] == Taken(HeldResponses(s.workers))
  {
    Conservation(Start(requests, responses, nworkers), schedule);
    StartTotals(requests, responses, nworkers);
  }

  lemma TakenBelow<T>(s: Slots<T>, k: nat)
    requires k < |s|
    ensures s[k].None? ==> Taken(s) < |s|
    ensures s[k].Some? ==> Taken(s) > 0
  {
    CountNone(s);
    assert s[k].None? ==> s[k] in multiset(s);
  }

  /** A recycle by a worker that holds the resource never finds the pool full. */
  lemma RecycleNeverDies<T>(requests: seq<T>, responses: seq<T>, nworkers: nat, schedule: seq<nat>, k: nat)
    requires k < nworkers && NoCrash(Run(Start(requests, responses, nworkers), schedule))
    ensures var s := Run(Start(requests, responses, nworkers), schedule);
            s.workers[k].HasBoth? || s.workers[k].HasResponse? ==> !Step(s, k).workers[k].Crashed?
  {
    var s := Run(Start(requests, responses, nworkers), schedule);
    EmptySlotsAreHeld(requests, responses, nworkers, schedule);
    TakenBelow(HeldRequests(s.workers), k);
    TakenBelow(HeldResponses(s.workers), k);
    assert s.workers[k].HasBoth? ==> None in s.requests;
    assert s.workers[k].HasResponse? ==> None in s.responses;
  }

  /** A get fails exactly when every resource of the pool is held by a worker. */
  lemma GetFailsWhenAllHeld<T>(requests: seq<T>, responses: seq<T>, nworkers: nat, schedule: seq<nat>, k: nat)
    requires k < nworkers && NoCrash(Run(Start(requests, responses, nworkers), schedule))
    ensures var s := Run(Start(requests, responses, nworkers), schedule);
            (s.workers[k].Idle? ==>
               (Step(s, k).workers[k].Crashed? <==> Taken(HeldRequests(s.workers)) == |requests|)) &&
            (s.workers[k].HasRequest? ==>
               (Step(s, k).workers[k].Crashed? <==> Taken(HeldResponses(s.workers)) == |responses|))
  {
    var s := Run(Start(requests, responses, nworkers), schedule);
    EmptySlotsAreHeld(requests, responses, nworkers, schedule);
    CountNone(s.requests);
    CountNone(s.responses);
  }

  // ----- enough resources

  /** With at least as many resources as workers, no call fails in any interleaving. */
  lemma {:induction false} NeverFails<T>(requests: seq<T>, responses: seq<T>, nworkers: nat, schedule: seq<nat>)
    requires nworkers <= |requests| && nworkers <= |responses|
    ensures NoCrash(Run(Start(requests, responses, nworkers), schedule))
  {
    if schedule != [] {
      var before, k := schedule[..|schedule| - 1], schedule[|schedule| - 1];
      NeverFails(requests, responses, nworkers, before);
      var s := Run(Start(requests, responses, nworkers), before);
      if k < nworkers {
        GetFailsWhenAllHeld(requests, responses, nworkers, before, k);
        RecycleNeverDies(requests, responses, nworkers, before, k);
        TakenBelow(HeldRequests(s.workers), k);
        TakenBelow(HeldResponses(s.workers), k);
      }
    }
  }

  lemma FirstFullIs<T>(s: Slots<T>, i: nat)
    requires i <= |s| && (i < |s| ==> s[i].Some?) && forall k :: 0 <= k < i ==> s[k].None?
    ensures FirstFull(s) == i
  {
    assert FirstFull(s) <= i;
    assert FirstFull(s) >= i;
  }

  function UpTo(n: nat): (s: seq<nat>)
    ensures |s| == n && forall i :: 0 <= i < n ==> s[i] == i
  {
    seq(n, i => i)
  }

  /** The first n workers have the first n requests and have taken nothing else. */
  ghost predicate FirstHaveRequests<T>(s: State<T>, requests: seq<T>, n: nat) {
    && |s.requests| == |requests|
    && (forall i :: 0 <= i < |s.workers| ==> if i < n then s.workers[i].HasRequest? else s.workers[i].Idle?)
    && (forall i :: 0 <= i < |requests| ==> if i < n then s.requests[i].None? else s.requests[i].Some?)
  }

  lemma TakesNext<T>(s: State<T>, requests: seq<T>, n: nat)
    requires n < |s.workers| && FirstHaveRequests(s, requests, n)
    ensures if n < |requests| then FirstHaveRequests(Step(s, n), requests, n + 1) else Step(s, n).workers[n].Crashed?
  {
    FirstFullIs(s.requests, if n < |requests| then n else |requests|);
  }

  lemma {:induction false} AllTakeRequests<T>(requests: seq<T>, responses: seq<T>, nworkers: nat, n: nat)
    requires n <= |requests| && n <= nworkers
    ensures FirstHaveRequests(Run(Start(requests, responses, nworkers), UpTo(n)), requests, n)
  {
    hide FirstHaveRequests;
    var s0 := Start(requests, responses, nworkers);
    if n == 0 {
      assert UpTo(0) == [];
      NoneHaveRequests(requests, responses, nworkers);
    } else {
      assert UpTo(n)[..n - 1] == UpTo(n - 1);
      AllTakeRequests(requests, responses, nworkers, n - 1);
      TakesNext(Run(s0, UpTo(n - 1)), requests, n - 1);
    }
  }

  lemma NoneHaveRequests<T>(requests: seq<T>, responses: seq<T>, nworkers: nat)
    ensures FirstHaveRequests(Start(requests, responses, nworkers), requests, 0)
  {
  }

  lemma OneTooMany<T>(requests: seq<T>, responses: seq<T>, nworkers: nat)
    requires nworkers > |requests|
    ensures !NoCrash(Run(Start(requests, responses, nworkers), UpTo(|requests| + 1)))
  {
    hide FirstHaveRequests;
    var n := |requests|;
    var s := Run(Start(requests, responses, nworkers), UpTo(n));
    AllTakeRequests(requests, responses, nworkers, n);
    TakesNext(s, requests, n);
    assert UpTo(n + 1)[..n] == UpTo(n);
    assert Run(Start(requests, responses, nworkers), UpTo(n + 1)) == Step(s, n);
  }

  /** The server's choice is exact: with N of each, every interleaving is safe iff there are at most N workers. */
  lemma SafeExactly<T>(requests: seq<T>, responses: seq<T>, nworkers: nat)
    requires |requests| == |responses|
    ensures (forall schedule :: NoCrash(Run(Start(requests, responses, nworkers), schedule)))
            <==> nworkers <= |requests|
  {
    if nworkers <= |requests| {
      forall schedule ensures NoCrash(Run(Start(requests, responses, nworkers), schedule)) {
        NeverFails(requests, responses, nworkers, schedule);
      }
    } else {
      OneTooMany(requests, responses, nworkers);
    }
  }

  // ----- exclusive holders

  lemma TwicePresent<T>(s: Slots<T>, i: nat, j: nat)
    requires i < j < |s| && s[i] == s[j]
    ensures multiset(s)[s[i]] >= 2
  {
    assert s == s[..j] + s[j..];
    assert s[..j][i] == s[i] && s[j..][0] == s[i];
    assert s[i] in multiset(s[..j]) && s[i] in multiset(s[j..]);
  }

  lemma {:induction false} AtMostOnce<T>(resources: seq<T>, r: T)
    requires Distinct(resources)
    ensures multiset(Full(resources))[Some(r)] <= 1
  {
    var s := Full(resources);
    if s != [] {
      AtMostOnce(resources[1..], r);
      assert s == [s[0]] + Full(resources[1..]);
      assert s[0] == Some(r) ==> Some(r) !in Full(resources[1..]);
    }
  }

  ghost predicate Distinct<T>(resources: seq<T>) {
    forall i, j :: 0 <= i < j < |resources| ==> resources[i] != resources[j]
  }

  /** Of what `resources` put into a pool, at most one of each is there or held, once the totals are kept. */
  lemma PresentOnce<T>(resources: seq<T>, held0: Slots<T>, pool: Slots<T>, held: Slots<T>, r: T)
    requires Distinct(resources) && (forall k :: 0 <= k < |held0| ==> held0[k].None?)
    requires multiset(pool) + multiset(held) == multiset(Full(resources)) + multiset(held0)
    ensures multiset(pool)[Some(r)] + multiset(held)[Some(r)] <= 1
  {
    AtMostOnce(resources, r);
    assert Some(r) !in held0;
    assert (multiset(pool) + multiset(held))[Some(r)] == multiset(Full(resources))[Some(r)];
  }

  lemma HeldAlone<T>(pool: Slots<T>, held: Slots<T>, i: nat, j: nat)
    requires i < |held| && j < |held| && held[i].Some?
    requires multiset(pool)[held[i]] + multiset(held)[held[i]] <= 1
    ensures held[i] !in pool && (i != j ==> held[j] != held[i])
  {
    assert multiset(held)[held[i]] >= 1;
    if i < j && held[j] == held[i] { TwicePresent(held, i, j); }
    if j < i && held[j] == held[i] { TwicePresent(held, j, i); }
  }

  /** No resource has two holders, and none is held and pooled at the same time. */
  lemma Exclusive<T>(requests: seq<T>, responses: seq<T>, nworkers: nat, schedule: seq<nat>, i: nat, j: nat)
    requires Distinct(requests) && Distinct(responses)
    requires i < nworkers && j < nworkers && NoCrash(Run(Start(requests, responses, nworkers), schedule))
    ensures var s := Run(Start(requests, responses, nworkers), schedule);
            var q, p := RequestOf(s.workers[i]), ResponseOf(s.workers[i]);
            (q.Some? ==> q !in s.requests && (i != j ==> RequestOf(s.workers[j]) != q)) &&
            (p.Some? ==> p !in s.responses && (i != j ==> ResponseOf(s.workers[j]) != p))
  {
    var s0 := Start(requests, responses, nworkers);
    var s := Run(s0, schedule);
    Conservation(s0, schedule);
    var q, p := RequestOf(s.workers[i]), ResponseOf(s.workers[i]);
    if q.Some? {
      PresentOnce(requests, HeldRequests(s0.workers), s.requests, HeldRequests(s.workers), q.value);
      HeldAlone(s.requests, HeldRequests(s.workers), i, j);
    }
    if p.Some? {
      PresentOnce(responses, HeldResponses(s0.workers), s.responses, HeldResponses(s.workers), p.value);
      HeldAlone(s.responses, HeldResponses(s.workers), i, j);
    }
  }
}
