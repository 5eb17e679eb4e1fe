/** The two gates of the batch endpoint as a transition system over every
    interleaving of its requests: the admission cap, held by the handler, and the
    CPU gate, held by the blocking task, which outlives its handler. */
module Gate {
  import opened Common

  /** What persistence can answer with: success, or the status of one of its failures. */
  const PERSIST_STATUSES: set<nat> := {200, 400, 403, 404, 500, 502, 504}

  datatype Outcome = Verified | Refused | Panicked

  /** Where the handler of a request is. `Gone` is a dropped handler future. */
  datatype Handler =
    | Parsing
    | AwaitCpu
    | AwaitJoin
    | Persisting
    | Answered(status: nat)
    | Gone

  /** Where its blocking task is. Locals drop in reverse order: the gauge guard
      first (`Running` to `Unwinding`), the CPU permit after it. */
  datatype Task =
    | NotSpawned
    | Queued
    | Running
    | Unwinding(outcome: Outcome)
    | Ended(outcome: Outcome)

  /** `admitted` tells whether the request got an admission permit on arrival. */
  datatype Req = Req(handler: Handler, task: Task, admitted: bool) {
    predicate HoldsAdmit() { handler.Parsing? || handler.AwaitCpu? || handler.AwaitJoin? || handler.Persisting? }

    predicate HoldsCpu() { task.Queued? || task.Running? || task.Unwinding? }

    predicate InGuard() { task.Running? }

    /** A task nobody waits for any more. */
    predicate Detached() { HoldsCpu() && !handler.AwaitJoin? }

    predicate Coherent() {
      && (handler.Parsing? || handler.AwaitCpu? ==> task.NotSpawned?)
      && (handler.AwaitJoin? ==> !task.NotSpawned?)
      && (handler.Persisting? ==> task == Ended(Verified))
      && (handler == Answered(200) ==> task == Ended(Verified))
      && (HoldsCpu() ==> handler.AwaitJoin? || handler.Gone?)
      && (handler.Answered? ==>
            match task
            case NotSpawned => handler.status == if admitted then 400 else 503
            case Ended(Refused) => handler.status == 400
            case Ended(Panicked) => handler.status == 500
            case _ => handler.status in PERSIST_STATUSES)
      && (!admitted ==> handler.Answered? && task.NotSpawned?)
    }

    /** Steps the request can still take. */
    function Work(): nat {
      (match handler
       case Parsing => 7
       case AwaitCpu => 6
       case AwaitJoin => 2
       case Persisting => 1
       case Answered(_) => 0
       case Gone => 0)
      + (match task
         case NotSpawned => 0
         case Queued => 3
         case Running => 2
         case Unwinding(_) => 1
         case Ended(_) => 0)
    }
  }

  datatype State = State(admitCap: nat, verifyCap: nat, admitFree: int, cpuFree: int, gauge: int, reqs: seq<Req>)

  datatype Step =
    | Arrive
    | BadAddress(r: nat)
    | GoodAddress(r: nat)
    | AcquireCpu(r: nat)
    | Start(r: nat)
    | EndRun(r: nat, outcome: Outcome)
    | ReleaseCpu(r: nat)
    | Join(r: nat)
    | Persisted(r: nat, status: nat)
    | Disconnect(r: nat)

  function Init(admitCap: nat, verifyCap: nat): State
    requires admitCap >= 1 && verifyCap >= 1
  {
    State(admitCap, verifyCap, admitCap, verifyCap, 0, [])
  }

  predicate Enabled(s: State, step: Step) {
    if step.Arrive? then true
    else
      && step.r < |s.reqs|
      && var req := s.reqs[step.r];
         match step
         case Arrive => true
         case BadAddress(_) => req.handler.Parsing?
         case GoodAddress(_) => req.handler.Parsing?
         case AcquireCpu(_) => req.handler.AwaitCpu? && s.cpuFree > 0
         case Start(_) => req.task.Queued?
         case EndRun(_, _) => req.task.Running?
         case ReleaseCpu(_) => req.task.Unwinding?
         case Join(_) => req.handler.AwaitJoin? && req.task.Ended?
         case Persisted(_, status) => req.handler.Persisting? && status in PERSIST_STATUSES
         case Disconnect(_) => req.handler.AwaitCpu? || req.handler.AwaitJoin? || req.handler.Persisting?
  }

  /** The handler answers, which drops its admission permit. */
  function Answer(s: State, r: nat, status: nat): State
    requires r < |s.reqs|
  {
    s.(admitFree := s.admitFree + 1, reqs := s.reqs[r := s.reqs[r].(handler := Answered(status))])
  }

  function Apply(s: State, step: Step): State
    requires Enabled(s, step)
  {
    match step
    case Arrive =>
      // `try_acquire_owned`: never waits.
      if s.admitFree > 0 then s.(admitFree := s.admitFree - 1, reqs := s.reqs + [Req(Parsing, NotSpawned, true)])
      else s.(reqs := s.reqs + [Req(Answered(503), NotSpawned, false)])
    case BadAddress(r) => Answer(s, r, 400)
    case GoodAddress(r) => s.(reqs := s.reqs[r := s.reqs[r].(handler := AwaitCpu)])
    case AcquireCpu(r) =>
      // The permit moves straight into the spawned task.
      s.(cpuFree := s.cpuFree - 1, reqs := s.reqs[r := s.reqs[r].(handler := AwaitJoin, task := Queued)])
    case Start(r) => s.(gauge := s.gauge + 1, reqs := s.reqs[r := s.reqs[r].(task := Running)])
    case EndRun(r, outcome) => s.(gauge := s.gauge - 1, reqs := s.reqs[r := s.reqs[r].(task := Unwinding(outcome))])
    case ReleaseCpu(r) =>
      s.(cpuFree := s.cpuFree + 1, reqs := s.reqs[r := s.reqs[r].(task := Ended(s.reqs[r].task.outcome))])
    case Join(r) =>
      (match s.reqs[r].task.outcome
       case Verified => s.(reqs := s.reqs[r := s.reqs[r].(handler := Persisting)])
       case Refused => Answer(s, r, 400)
       case Panicked => Answer(s, r, 500))
    case Persisted(r, status) => Answer(s, r, status)
    case Disconnect(r) => s.(admitFree := s.admitFree + 1, reqs := s.reqs[r := s.reqs[r].(handler := Gone)])
  }

  /** The state after a run, if every step of it was enabled in turn. */
  function Run(s: State, steps: seq<Step>): Option<State> {
    if steps == [] then Some(s)
    else
      var before :- Run(s, steps[..|steps| - 1]);
      var last := steps[|steps| - 1];
      if Enabled(before, last) then Some(Apply(before, last)) else None
  }

  /** What is not the server's to decide can always happen: arrivals; any end of a closure
      under way; any status of persistence; a client that hangs up at any await. */
  lemma AnythingCanHappen(s: State, r: nat, outcome: Outcome, status: nat)
    ensures Enabled(s, Arrive)
    ensures r < |s.reqs| && s.reqs[r].handler.Parsing? ==> Enabled(s, BadAddress(r)) && Enabled(s, GoodAddress(r))
    ensures r < |s.reqs| && s.reqs[r].task == Running ==> Enabled(s, EndRun(r, outcome))
    ensures r < |s.reqs| && s.reqs[r].handler == Persisting && status in {200, 400, 403, 404, 500, 502, 504} ==>
              Enabled(s, Persisted(r, status))
    ensures r < |s.reqs| && s.reqs[r].handler in {AwaitCpu, AwaitJoin, Persisting} ==>
              && Enabled(s, Disconnect(r))
              && Apply(s, Disconnect(r)).reqs[r] == Req(Gone, s.reqs[r].task, s.reqs[r].admitted)
  {
  }

  // ----- counting -----------------------------------------------------------

  function Count(reqs: seq<Req>, p: Req -> bool): nat {
    if reqs == [] then 0 else Count(reqs[..|reqs| - 1], p) + (if p(reqs[|reqs| - 1]) then 1 else 0)
  }

  function TotalWork(reqs: seq<Req>): nat {
    if reqs == [] then 0 else TotalWork(reqs[..|reqs| - 1]) + reqs[|reqs| - 1].Work()
  }

  function One(b: bool): nat {
    if b then 1 else 0
  }

  lemma {:induction false} CountUpdate(reqs: seq<Req>, r: nat, q: Req, p: Req -> bool)
    requires r < |reqs|
    ensures Count(reqs[r := q], p) == Count(reqs, p) - One(p(reqs[r])) + One(p(q))
  {
    var n := |reqs| - 1;
    if r < n {
      CountUpdate(reqs[..n], r, q, p);
      assert reqs[r := q][..n] == reqs[..n][r := q];
    } else {
      assert reqs[r := q][..n] == reqs[..n];
    }
  }

  lemma {:induction false} WorkUpdate(reqs: seq<Req>, r: nat, q: Req)
    requires r < |reqs|
    ensures TotalWork(reqs[r := q]) == TotalWork(reqs) - reqs[r].Work() + q.Work()
  {
    var n := |reqs| - 1;
    if r < n {
      WorkUpdate(reqs[..n], r, q);
      assert reqs[r := q][..n] == reqs[..n][r := q];
    } else {
      assert reqs[r := q][..n] == reqs[..n];
    }
  }

  lemma CountSnoc(reqs: seq<Req>, q: Req, p: Req -> bool)
    ensures Count(reqs + [q], p) == Count(reqs, p) + One(p(q))
  {
    assert (reqs + [q])[..|reqs|] == reqs;
  }

  lemma {:induction false} CountPositive(reqs: seq<Req>, p: Req -> bool)
    ensures Count(reqs, p) > 0 <==> exists r :: 0 <= r < |reqs| && p(reqs[r])
  {
    if reqs != [] {
      CountPositive(reqs[..|reqs| - 1], p);
    }
  }

  lemma {:induction false} CountMonotone(reqs: seq<Req>, p: Req -> bool, q: Req -> bool)
    requires forall r :: 0 <= r < |reqs| && p(reqs[r]) ==> q(reqs[r])
    ensures Count(reqs, p) <= Count(reqs, q)
  {
    if reqs != [] {
      CountMonotone(reqs[..|reqs| - 1], p, q);
    }
  }

  lemma OneIndexMore(reqs: seq<Req>, p: Req -> bool, n: nat)
    requires n < |reqs|
    ensures |set r | 0 <= r < n + 1 && p(reqs[r])| == |set r | 0 <= r < n && p(reqs[r])| + One(p(reqs[n]))
  {
    var all, before := set r | 0 <= r < n + 1 && p(reqs[r]), set r | 0 <= r < n && p(reqs[r]);
    assert n !in before;
    if p(reqs[n]) {
      assert all == before + {n};
    } else {
      assert all == before;
    }
  }

  /** The requests with a property, among the first `n`. */
  lemma {:induction false} CountIsCard(reqs: seq<Req>, p: Req -> bool, n: nat)
    requires n <= |reqs|
    ensures Count(reqs[..n], p) == |set r | 0 <= r < n && p(reqs[r])|
  {
    var all := set r | 0 <= r < n && p(reqs[r]);
    if n > 0 {
      CountIsCard(reqs, p, n - 1);
      assert reqs[..n] == reqs[..n - 1] + [reqs[n - 1]];
      CountSnoc(reqs[..n - 1], reqs[n - 1], p);
      hide Count;
      OneIndexMore(reqs, p, n - 1);
    }
  }

  const ADMITTED: Req -> bool := (q: Req) => q.HoldsAdmit()
  const ON_CPU: Req -> bool := (q: Req) => q.HoldsCpu()
  const GUARDED: Req -> bool := (q: Req) => q.InGuard()
  const ORPHAN: Req -> bool := (q: Req) => q.Detached()

  // ----- what every step keeps ----------------------------------------------

  /** Permits are conserved, the gauge is exact, and the counters are never negative. */
  ghost predicate Inv(s: State) {
    && s.admitCap >= 1 && s.verifyCap >= 1
    && s.admitFree >= 0 && s.cpuFree >= 0
    && s.admitFree + Count(s.reqs, ADMITTED) == s.admitCap
    && s.cpuFree + Count(s.reqs, ON_CPU) == s.verifyCap
    && s.gauge == Count(s.reqs, GUARDED)
    && forall r :: 0 <= r < |s.reqs| ==> s.reqs[r].Coherent()
  }

  /** The effect of changing one request on the three counts. */
  lemma CountsUpdate(reqs: seq<Req>, r: nat, q: Req)
    requires r < |reqs|
    ensures Count(reqs[r := q], ADMITTED) == Count(reqs, ADMITTED) - One(reqs[r].HoldsAdmit()) + One(q.HoldsAdmit())
    ensures Count(reqs[r := q], ON_CPU) == Count(reqs, ON_CPU) - One(reqs[r].HoldsCpu()) + One(q.HoldsCpu())
    ensures Count(reqs[r := q], GUARDED) == Count(reqs, GUARDED) - One(reqs[r].InGuard()) + One(q.InGuard())
  {
    CountUpdate(reqs, r, q, ADMITTED);
    CountUpdate(reqs, r, q, ON_CPU);
    CountUpdate(reqs, r, q, GUARDED);
  }

  lemma ArrivalKeepsInv(s: State)
    requires Inv(s)
    ensures Inv(Apply(s, Arrive))
  {
    hide Count;
    var q := Apply(s, Arrive).reqs[|s.reqs|];
    CountSnoc(s.reqs, q, ADMITTED);
    CountSnoc(s.reqs, q, ON_CPU);
    CountSnoc(s.reqs, q, GUARDED);
  }

  /** One request moves, and takes or returns exactly what it holds or held. */
  lemma MoveKeepsInv(s: State, s': State, r: nat, q: Req)
    requires Inv(s) && r < |s.reqs| && q.Coherent()
    requires s'.reqs == s.reqs[r := q] && s'.admitCap == s.admitCap && s'.verifyCap == s.verifyCap
    requires s'.admitFree == s.admitFree + One(s.reqs[r].HoldsAdmit()) - One(q.HoldsAdmit()) >= 0
    requires s'.cpuFree == s.cpuFree + One(s.reqs[r].HoldsCpu()) - One(q.HoldsCpu()) >= 0
    requires s'.gauge == s.gauge - One(s.reqs[r].InGuard()) + One(q.InGuard())
    ensures Inv(s')
  {
    CountsUpdate(s.reqs, r, q);
  }

  lemma StepKeepsInv(s: State, step: Step)
    requires Inv(s) && Enabled(s, step)
    ensures Inv(Apply(s, step))
  {
    if step.Arrive? {
      ArrivalKeepsInv(s);
    } else {
      hide Count;
      assert s.reqs[step.r].Coherent();
      var s' := Apply(s, step);
      MoveKeepsInv(s, s', step.r, s'.reqs[step.r]);
    }
  }

  /** Live handlers, tasks between taking and dropping their CPU permit, and tasks under
      the gauge, counted out. */
  lemma CountsAre(reqs: seq<Req>)
    ensures Count(reqs, ADMITTED)
         == |set r | 0 <= r < |reqs| && reqs[r].handler in {Parsing, AwaitCpu, AwaitJoin, Persisting}|
    ensures Count(reqs, ON_CPU)
         == |set r | 0 <= r < |reqs| && (reqs[r].task == Queued || reqs[r].task == Running
                                         || reqs[r].task.Unwinding?)|
    ensures Count(reqs, GUARDED) == |set r | 0 <= r < |reqs| && reqs[r].task == Running|
  {
    CountIsCard(reqs, ADMITTED, |reqs|);
    CountIsCard(reqs, ON_CPU, |reqs|);
    CountIsCard(reqs, GUARDED, |reqs|);
    assert reqs[..|reqs|] == reqs;
    hide Count;
    assert (set r | 0 <= r < |reqs| && ADMITTED(reqs[r]))
        == (set r | 0 <= r < |reqs| && reqs[r].handler in {Parsing, AwaitCpu, AwaitJoin, Persisting});
    assert (set r | 0 <= r < |reqs| && ON_CPU(reqs[r]))
        == (set r | 0 <= r < |reqs| && (reqs[r].task == Queued || reqs[r].task == Running
                                        || reqs[r].task.Unwinding?));
    assert (set r | 0 <= r < |reqs| && GUARDED(reqs[r])) == (set r | 0 <= r < |reqs| && reqs[r].task == Running);
  }

  lemma {:induction false} ReachableInv(admitCap: nat, verifyCap: nat, steps: seq<Step>)
    requires admitCap >= 1 && verifyCap >= 1
    requires Run(Init(admitCap, verifyCap), steps).Some?
    ensures var s := Run(Init(admitCap, verifyCap), steps).value;
            Inv(s) && s.admitCap == admitCap && s.verifyCap == verifyCap
  {
    if steps != [] {
      ReachableInv(admitCap, verifyCap, steps[..|steps| - 1]);
      StepKeepsInv(Run(Init(admitCap, verifyCap), steps[..|steps| - 1]).value, steps[|steps| - 1]);
    }
  }

  /** Through shedding, refusals, panics and disconnects at any await: in every
      reachable state free and held permits add up to each cap, the gauge counts
      the closures between its increment and its drop, and never exceeds the CPU
      permits held. */
  lemma PermitsConserved(admitCap: nat, verifyCap: nat, steps: seq<Step>)
    requires admitCap >= 1 && verifyCap >= 1
    requires Run(Init(admitCap, verifyCap), steps).Some?
    ensures var s := Run(Init(admitCap, verifyCap), steps).value;
            var live := set r | 0 <= r < |s.reqs|
                                && s.reqs[r].handler in {Parsing, AwaitCpu, AwaitJoin, Persisting};
            var onCpu := set r | 0 <= r < |s.reqs| && (s.reqs[r].task == Queued || s.reqs[r].task == Running
                                                       || s.reqs[r].task.Unwinding?);
            && Inv(s) && s.admitFree >= 0 && s.cpuFree >= 0
            && s.admitFree + |live| == admitCap && s.cpuFree + |onCpu| == verifyCap
            && s.gauge == |set r | 0 <= r < |s.reqs| && s.reqs[r].task == Running|
            && 0 <= s.gauge <= |onCpu| <= verifyCap
  {
    ReachableInv(admitCap, verifyCap, steps);
    var s := Run(Init(admitCap, verifyCap), steps).value;
    hide Run;
    CountMonotone(s.reqs, GUARDED, ON_CPU);
    CountsAre(s.reqs);
    hide Count;
  }

  /** What an answer tells: 503 exactly for a request that was shed; without a task
      otherwise 400, for a malformed address; refused or panicked by how its blocking
      work ended; the others come from persisting verified work. */
  lemma AnswersFit(admitCap: nat, verifyCap: nat, steps: seq<Step>, r: nat)
    requires admitCap >= 1 && verifyCap >= 1
    requires Run(Init(admitCap, verifyCap), steps).Some?
    requires var s := Run(Init(admitCap, verifyCap), steps).value; r < |s.reqs| && s.reqs[r].handler.Answered?
    ensures var q := Run(Init(admitCap, verifyCap), steps).value.reqs[r];
            match q.task
            case NotSpawned => q.handler.status == if q.admitted then 400 else 503
            case Ended(Refused) => q.handler.status == 400
            case Ended(Panicked) => q.handler.status == 500
            case Ended(Verified) => q.handler.status in {200, 400, 403, 404, 500, 502, 504}
            case _ => false
    ensures var q := Run(Init(admitCap, verifyCap), steps).value.reqs[r];
            q.handler.status == 503 <==> !q.admitted
  {
    ReachableInv(admitCap, verifyCap, steps);
    assert Run(Init(admitCap, verifyCap), steps).value.reqs[r].Coherent();
  }

  /** Live handlers and tasks whose handler has gone never exceed the two caps together. */
  lemma OrphanBound(s: State)
    requires Inv(s)
    ensures Count(s.reqs, ADMITTED) + Count(s.reqs, ORPHAN) <= s.admitCap + s.verifyCap
    ensures Count(s.reqs, ORPHAN) <= s.verifyCap
  {
    CountMonotone(s.reqs, ORPHAN, ON_CPU);
  }

  /** A request is shed exactly when the cap's worth of handlers is live. */
  lemma ShedExactlyAtCap(s: State)
    requires Inv(s)
    ensures var q := Apply(s, Arrive).reqs[|s.reqs|];
            && (!q.admitted <==> Count(s.reqs, ADMITTED) == s.admitCap)
            && (!q.admitted <==> q.handler == Answered(503))
  {
  }

  // ----- quiescence ---------------------------------------------------------

  /** A step the server takes by itself: no arrival, no client hanging up. */
  predicate Internal(step: Step) {
    !step.Arrive? && !step.Disconnect?
  }

  /** Every step but an arrival uses up work. */
  lemma StepUsesWork(s: State, step: Step)
    requires Inv(s) && Enabled(s, step) && !step.Arrive?
    ensures TotalWork(Apply(s, step).reqs) < TotalWork(s.reqs)
  {
    var s' := Apply(s, step);
    assert s'.reqs == s.reqs[step.r := s'.reqs[step.r]];
    WorkUpdate(s.reqs, step.r, s'.reqs[step.r]);
    assert s.reqs[step.r].Coherent();
  }

  lemma {:induction false} SomeWork(reqs: seq<Req>) returns (r: nat)
    requires TotalWork(reqs) > 0
    ensures r < |reqs| && reqs[r].Work() > 0
  {
    if reqs[|reqs| - 1].Work() > 0 {
      r := |reqs| - 1;
    } else {
      r := SomeWork(reqs[..|reqs| - 1]);
    }
  }

  /** A request whose task holds the CPU, or whose handler is past the CPU gate,
      can move without waiting for anyone. */
  function OwnStep(q: Req, r: nat): Step
    requires q.Coherent() && q.Work() > 0 && !q.handler.AwaitCpu?
  {
    if q.handler.Parsing? then GoodAddress(r)
    else if q.task.Queued? then Start(r)
    else if q.task.Running? then EndRun(r, Verified)
    else if q.task.Unwinding? then ReleaseCpu(r)
    else if q.handler.AwaitJoin? then Join(r)
    else Persisted(r, 200)
  }

  /** While work is left, the server can take a step by itself: a handler waiting
      at the CPU gate waits for tasks that can always finish. */
  lemma Progress(s: State) returns (step: Step)
    requires Inv(s) && TotalWork(s.reqs) > 0
    ensures Internal(step) && Enabled(s, step)
  {
    var r := SomeWork(s.reqs);
    assert s.reqs[r].Coherent();
    if !s.reqs[r].handler.AwaitCpu? {
      step := OwnStep(s.reqs[r], r);
    } else if s.cpuFree > 0 {
      step := AcquireCpu(r);
    } else {
      CountPositive(s.reqs, ON_CPU);
      var h :| 0 <= h < |s.reqs| && ON_CPU(s.reqs[h]);
      assert s.reqs[h].Coherent();
      step := OwnStep(s.reqs[h], h);
    }
  }

  lemma {:induction false} NoWorkNoPermits(reqs: seq<Req>)
    ensures TotalWork(reqs) == 0 ==> Count(reqs, ADMITTED) == Count(reqs, ON_CPU) == Count(reqs, GUARDED) == 0
  {
    if reqs != [] {
      NoWorkNoPermits(reqs[..|reqs| - 1]);
    }
  }

  /** A reachable state where the server can do nothing by itself is one with no
      work left, and then both semaphores are full and the gauge is at zero. */
  lemma Quiescence(s: State)
    requires Inv(s)
    ensures (forall step :: Internal(step) ==> !Enabled(s, step)) <==> TotalWork(s.reqs) == 0
    ensures TotalWork(s.reqs) == 0 ==> s.admitFree == s.admitCap && s.cpuFree == s.verifyCap && s.gauge == 0
  {
    if TotalWork(s.reqs) > 0 {
      var step := Progress(s);
    } else {
      NoWorkNoPermits(s.reqs);
      forall step | Internal(step)
        ensures !Enabled(s, step)
      {
        if Enabled(s, step) {
          StepUsesWork(s, step);
        }
      }
    }
  }

  /** Without arrivals every run ends: it has at most as many steps as there is work. */
  lemma {:induction false} RunsEnd(s: State, steps: seq<Step>)
    requires Inv(s) && Run(s, steps).Some?
    requires forall i :: 0 <= i < |steps| ==> !steps[i].Arrive?
    ensures Inv(Run(s, steps).value)
    ensures |steps| + TotalWork(Run(s, steps).value.reqs) <= TotalWork(s.reqs)
  {
    if steps != [] {
      var init, last := steps[..|steps| - 1], steps[|steps| - 1];
      RunsEnd(s, init);
      StepKeepsInv(Run(s, init).value, last);
      StepUsesWork(Run(s, init).value, last);
    }
  }
}
