/** The whole batch endpoint: the gate with, for every request that has got as far as
    persisting, its own run of persistence. Each request's run sees the store through
    its own eyes, with the other requests' writes at any moment. */
module Endpoint {
  import opened Common
  import G = Gate
  import P = Persist

  /** The persistence of one request: what it has to store, and its steps so far. */
  datatype Session = Session(plan: P.Plan, steps: seq<P.Step>) {
    function Now(): Option<P.State> {
      P.Run(plan, steps)
    }

    function And(step: P.Step): Session {
      Session(plan, steps + [step])
    }
  }

  /** `sessions[r]` belongs to the gate's request `r`. */
  datatype State = State(gate: G.State, sessions: seq<Option<Session>>)

  /** A step of the gate (with the plan a request would persist, should it get there),
      of one request's persistence, or the answer once that has ended. */
  datatype Step =
    | Front(step: G.Step, plan: P.Plan)
    | Store(r: nat, own: P.Step)
    | Reply(r: nat)

  function Init(admitCap: nat, verifyCap: nat): State
    requires admitCap >= 1 && verifyCap >= 1
  {
    State(G.Init(admitCap, verifyCap), [])
  }

  /** The status persistence has come to, if it has. */
  function StatusOf(s: P.State): Option<nat> {
    match s.answer
    case Released => Some(200)
    case Refused(status) => Some(status)
    case _ => None
  }

  predicate HasRun(s: State, r: nat) {
    r < |s.sessions| && s.sessions[r].Some? && s.sessions[r].value.Now().Some?
  }

  function RunOf(s: State, r: nat): P.State
    requires HasRun(s, r)
  {
    s.sessions[r].value.Now().value
  }

  predicate IsPersisting(s: State, r: nat) {
    r < |s.gate.reqs| && s.gate.reqs[r].handler.Persisting?
  }

  predicate Enabled(s: State, step: Step) {
    match step
    case Front(g, _) => !g.Persisted? && G.Enabled(s.gate, g)
    case Store(r, p) => HasRun(s, r) && !p.Disconnect? && P.Enabled(s.sessions[r].value.plan, RunOf(s, r), p)
    case Reply(r) => IsPersisting(s, r) && HasRun(s, r) && StatusOf(RunOf(s, r)).Some?
                     && StatusOf(RunOf(s, r)).value in G.PERSIST_STATUSES
  }

  /** What a gate step does to the sessions: an arrival brings an empty place, a join
      on a verified proof begins persisting, a client that goes away while persisting
      drops the run. */
  function Sessions(s: State, g: G.Step, plan: P.Plan): seq<Option<Session>>
    requires G.Enabled(s.gate, g) && |s.sessions| == |s.gate.reqs|
  {
    match g
    case Arrive => s.sessions + [None]
    case Join(r) =>
      if s.gate.reqs[r].task == G.Ended(G.Verified) then s.sessions[r := Some(Session(plan, []))] else s.sessions
    case Disconnect(r) =>
      if IsPersisting(s, r) && HasRun(s, r) && RunOf(s, r).answer.Pending?
      then s.sessions[r := Some(s.sessions[r].value.And(P.Disconnect))]
      else s.sessions
    case _ => s.sessions
  }

  /** The gate's own step, if the step is one. */
  function GateStep(s: State, step: Step): Option<G.Step>
    requires Enabled(s, step)
  {
    match step
    case Front(g, _) => Some(g)
    case Store(_, _) => None
    case Reply(r) => Some(G.Persisted(r, StatusOf(RunOf(s, r)).value))
  }

  function Apply(s: State, step: Step): State
    requires Enabled(s, step) && |s.sessions| == |s.gate.reqs|
  {
    match step
    case Front(g, plan) => State(G.Apply(s.gate, g), Sessions(s, g, plan))
    case Store(r, p) => s.(sessions := s.sessions[r := Some(s.sessions[r].value.And(p))])
    case Reply(r) => s.(gate := G.Apply(s.gate, G.Persisted(r, StatusOf(RunOf(s, r)).value)))
  }

  /** Everything that can happen at the gate or in a request's persistence can happen
      here; a request answers what its persistence has come to. */
  lemma AnythingCanHappen(s: State, g: G.Step, plan: P.Plan, r: nat, own: P.Step)
    ensures !g.Persisted? && G.Enabled(s.gate, g) ==> Enabled(s, Front(g, plan))
    ensures HasRun(s, r) && !own.Disconnect? && P.Enabled(s.sessions[r].value.plan, RunOf(s, r), own) ==>
              Enabled(s, Store(r, own))
    ensures IsPersisting(s, r) && HasRun(s, r) && RunOf(s, r).answer.Released? ==> Enabled(s, Reply(r))
  {
  }

  lemma SameLength(s: State, step: Step)
    requires Enabled(s, step) && |s.sessions| == |s.gate.reqs|
    ensures |Apply(s, step).sessions| == |Apply(s, step).gate.reqs|
  {
  }

  /** The state after a run, if every step of it was enabled in turn. */
  function Run(admitCap: nat, verifyCap: nat, steps: seq<Step>): (r: Option<State>)
    requires admitCap >= 1 && verifyCap >= 1
    ensures r.Some? ==> |r.value.sessions| == |r.value.gate.reqs|
  {
    if steps == [] then Some(Init(admitCap, verifyCap))
    else
      var before :- Run(admitCap, verifyCap, steps[..|steps| - 1]);
      var last := steps[|steps| - 1];
      if Enabled(before, last) then
        SameLength(before, last);
        Some(Apply(before, last))
      else None
  }

  // ----- what every step keeps ----------------------------------------------

  /** A request's place in the gate fits its run: it persists with a run whose caller is
      still there, and it was answered what that run came to. */
  predicate Fits(req: G.Req, session: Option<Session>) {
    && (session.Some? ==> session.value.Now().Some?)
    && (req.handler.Persisting? ==> session.Some? && !session.value.Now().value.answer.Dropped?)
    && (req.handler.Answered? && req.task == G.Ended(G.Verified) ==>
          session.Some? && StatusOf(session.value.Now().value) == Some(req.handler.status))
  }

  ghost predicate Inv(s: State) {
    && G.Inv(s.gate) && |s.sessions| == |s.gate.reqs|
    && forall r :: 0 <= r < |s.sessions| ==> Fits(s.gate.reqs[r], s.sessions[r])
  }

  /** An answer, once there, stays. */
  lemma AnswerStays(plan: P.Plan, s: P.State, step: P.Step)
    requires |s.uploads| == |plan.items| && P.Enabled(plan, s, step) && !s.answer.Pending?
    ensures P.Apply(plan, s, step).answer == s.answer
  {
  }

  lemma StoreFits(req: G.Req, session: Session, step: P.Step)
    requires Fits(req, Some(session)) && !step.Disconnect? && P.Enabled(session.plan, session.Now().value, step)
    ensures Fits(req, Some(session.And(step)))
  {
    P.Then(session.plan, session.steps, step);
    var s := session.Now().value;
    hide P.Run;
    if !s.answer.Pending? {
      AnswerStays(session.plan, s, step);
    }
  }

  lemma DisconnectRuns(session: Session)
    requires session.Now().Some?
    ensures session.Now().value.answer.Pending? ==> session.And(P.Disconnect).Now().Some?
  {
    if session.Now().value.answer.Pending? {
      P.Then(session.plan, session.steps, P.Disconnect);
    }
  }

  lemma FreshSession(plan: P.Plan)
    ensures Session(plan, []).Now() == Some(P.Init(plan)) && P.Init(plan).answer.Pending?
  {
  }

  /** The requests a gate step other than `r`'s own leaves alone. */
  lemma FrontTouches(s: State, g: G.Step, plan: P.Plan, r: nat)
    requires |s.sessions| == |s.gate.reqs| && G.Enabled(s.gate, g) && r < |s.gate.reqs|
    requires g.Arrive? || g.r != r
    ensures G.Apply(s.gate, g).reqs[r] == s.gate.reqs[r] && Sessions(s, g, plan)[r] == s.sessions[r]
  {
    hide P.Run;
  }

  lemma FrontFits(s: State, g: G.Step, plan: P.Plan)
    requires Inv(s) && !g.Persisted? && G.Enabled(s.gate, g) && !g.Arrive?
    ensures Fits(G.Apply(s.gate, g).reqs[g.r], Sessions(s, g, plan)[g.r])
  {
    var r := g.r;
    assert Fits(s.gate.reqs[r], s.sessions[r]) && s.gate.reqs[r].Coherent();
    FreshSession(plan);
    if g.Disconnect? && s.sessions[r].Some? {
      DisconnectRuns(s.sessions[r].value);
    }
    hide P.Run;
  }

  lemma FrontKeepsInv(s: State, g: G.Step, plan: P.Plan)
    requires Inv(s) && Enabled(s, Front(g, plan))
    ensures Inv(Apply(s, Front(g, plan)))
  {
    var s' := Apply(s, Front(g, plan));
    G.StepKeepsInv(s.gate, g);
    SameLength(s, Front(g, plan));
    if g.Arrive? {
      assert s'.gate.reqs[|s.gate.reqs|].task.NotSpawned?;
    } else {
      FrontFits(s, g, plan);
    }
    hide P.Run, G.Inv, Fits;
    forall r | 0 <= r < |s.sessions| && (g.Arrive? || r != g.r)
      ensures Fits(s'.gate.reqs[r], s'.sessions[r])
    {
      FrontTouches(s, g, plan, r);
    }
  }

  lemma StoreKeepsInv(s: State, r: nat, own: P.Step)
    requires Inv(s) && Enabled(s, Store(r, own))
    ensures Inv(Apply(s, Store(r, own)))
  {
    assert Fits(s.gate.reqs[r], s.sessions[r]);
    StoreFits(s.gate.reqs[r], s.sessions[r].value, own);
    hide P.Run, G.Inv, Fits;
  }

  lemma ReplyKeepsInv(s: State, r: nat)
    requires Inv(s) && Enabled(s, Reply(r))
    ensures Inv(Apply(s, Reply(r)))
  {
    var status := StatusOf(RunOf(s, r)).value;
    assert Fits(s.gate.reqs[r], s.sessions[r]) && s.gate.reqs[r].Coherent();
    G.StepKeepsInv(s.gate, G.Persisted(r, status));
    hide P.Run, G.Inv;
    var s' := Apply(s, Reply(r));
    assert s'.gate.reqs == s.gate.reqs[r := s.gate.reqs[r].(handler := G.Answered(status))];
    assert Fits(s'.gate.reqs[r], s'.sessions[r]);
    hide Fits;
  }

  lemma {:induction false} RunKeepsInv(admitCap: nat, verifyCap: nat, steps: seq<Step>)
    requires admitCap >= 1 && verifyCap >= 1 && Run(admitCap, verifyCap, steps).Some?
    ensures Inv(Run(admitCap, verifyCap, steps).value)
  {
    if steps == [] {
      G.PermitsConserved(admitCap, verifyCap, []);
    } else {
      var before, last := Run(admitCap, verifyCap, steps[..|steps| - 1]).value, steps[|steps| - 1];
      RunKeepsInv(admitCap, verifyCap, steps[..|steps| - 1]);
      hide Inv, Enabled, Apply;
      match last {
        case Front(g, plan) => FrontKeepsInv(before, g, plan);
        case Store(r, own) => StoreKeepsInv(before, r, own);
        case Reply(r) => ReplyKeepsInv(before, r);
      }
    }
  }

  /** Seen from the gate, a run of the endpoint is a run of the gate: persistence takes
      the one step it was given there, when it has an answer. */
  lemma {:induction false} GateOfRun(admitCap: nat, verifyCap: nat, steps: seq<Step>) returns (gs: seq<G.Step>)
    requires admitCap >= 1 && verifyCap >= 1 && Run(admitCap, verifyCap, steps).Some?
    ensures G.Run(G.Init(admitCap, verifyCap), gs) == Some(Run(admitCap, verifyCap, steps).value.gate)
  {
    if steps == [] {
      gs := [];
    } else {
      var before, last := Run(admitCap, verifyCap, steps[..|steps| - 1]).value, steps[|steps| - 1];
      gs := GateOfRun(admitCap, verifyCap, steps[..|steps| - 1]);
      var g := GateStep(before, last);
      if g.Some? {
        assert (gs + [g.value])[..|gs|] == gs;
        gs := gs + [g.value];
      }
    }
  }

  // ----- what an answer means -----------------------------------------------

  /** The run of request `r` is a run of persistence that ended as `status` says. */
  ghost predicate EndedAs(s: State, r: nat, status: nat) {
    HasRun(s, r) && StatusOf(RunOf(s, r)) == Some(status)
  }

  /** In every reachable state, through sheds, refusals, panics and disconnects of any
      request: what is answered 200 has had every object written to the store and a
      StoreCts call accepted, and every accepted call is the request's own. */
  lemma SuccessMeansPersisted(admitCap: nat, verifyCap: nat, steps: seq<Step>, r: nat)
    requires admitCap >= 1 && verifyCap >= 1 && Run(admitCap, verifyCap, steps).Some?
    requires var s := Run(admitCap, verifyCap, steps).value;
             r < |s.gate.reqs| && s.gate.reqs[r].handler == G.Answered(200)
    ensures var s := Run(admitCap, verifyCap, steps).value;
            && EndedAs(s, r, 200)
            && var plan, run := s.sessions[r].value.plan, RunOf(s, r);
               && (plan.storage ==> forall i :: 0 <= i < |plan.items| ==> P.Wrote(run.log, plan.items[i]))
               && (plan.storeCts ==> run.taken != [] && forall call :: call in run.taken ==> call == plan.request)
  {
    var s := Run(admitCap, verifyCap, steps).value;
    RunKeepsInv(admitCap, verifyCap, steps);
    assert Fits(s.gate.reqs[r], s.sessions[r]) && s.gate.reqs[r].Coherent();
    var session := s.sessions[r].value;
    P.RunKeepsInv(session.plan, session.steps);
    P.PersistBeforeRelease(session.plan, session.steps);
  }

  /** And what is answered with another status once verified has failed to persist,
      with that status: an upload or StoreCts has given up. */
  lemma FailureMeansGaveUp(admitCap: nat, verifyCap: nat, steps: seq<Step>, r: nat)
    requires admitCap >= 1 && verifyCap >= 1 && Run(admitCap, verifyCap, steps).Some?
    requires var s := Run(admitCap, verifyCap, steps).value;
             && r < |s.gate.reqs| && s.gate.reqs[r].handler.Answered? && s.gate.reqs[r].handler.status != 200
             && s.gate.reqs[r].task == G.Ended(G.Verified)
    ensures var s := Run(admitCap, verifyCap, steps).value;
            && EndedAs(s, r, s.gate.reqs[r].handler.status)
            && var run, plan := RunOf(s, r), s.sessions[r].value.plan;
               if run.external.ExtErr? then
                 && (exists i: nat :: P.FailedWith(run.uploads, i, run.external.error)
                                      && P.GivesUp(plan, run.uploads[i], run.external.error))
                 && s.gate.reqs[r].handler.status == (if run.external.error.Timeout? then 504
                                                      else if run.external.error.Network? then 502
                                                      else if run.external.error.PermissionDenied? then 403
                                                      else if run.external.error.NotFound? then 404
                                                      else if run.external.error.Serialization? then 400
                                                      else 500)
               else
                 && s.gate.reqs[r].handler.status == 500 && run.cts.CtsErr?
                 && (plan.storeCts ==> run.ctsCalls == plan.ctsRetries + 1)
  {
    var s := Run(admitCap, verifyCap, steps).value;
    RunKeepsInv(admitCap, verifyCap, steps);
    assert Fits(s.gate.reqs[r], s.sessions[r]);
    P.RefusedMeansFailed(s.sessions[r].value.plan, s.sessions[r].value.steps);
    hide P.Run, P.FailedWith, P.GivesUp, Run;
  }

  // ----- progress -----------------------------------------------------------

  /** A step the server takes by itself. */
  predicate Internal(step: Step) {
    match step
    case Front(g, _) => G.Internal(g)
    case Store(_, own) => P.Internal(own)
    case Reply(_) => true
  }

  lemma PersistingStep(s: State, r: nat) returns (step: Step)
    requires Inv(s) && IsPersisting(s, r)
    ensures Internal(step) && Enabled(s, step)
  {
    assert Fits(s.gate.reqs[r], s.sessions[r]);
    var session := s.sessions[r].value;
    P.RunKeepsInv(session.plan, session.steps);
    var run := session.Now().value;
    if run.answer.Pending? {
      var own := P.Progress(session.plan, run);
      step := Store(r, own);
    } else {
      step := Reply(r);
    }
  }

  /** While work is left at the gate the server can take a step of its own: a request
      that persists has one until it has come to an answer, and then gives it. */
  lemma Progress(admitCap: nat, verifyCap: nat, steps: seq<Step>, plan: P.Plan) returns (step: Step)
    requires admitCap >= 1 && verifyCap >= 1 && Run(admitCap, verifyCap, steps).Some?
    requires G.TotalWork(Run(admitCap, verifyCap, steps).value.gate.reqs) > 0
    ensures Internal(step) && Enabled(Run(admitCap, verifyCap, steps).value, step)
  {
    var s := Run(admitCap, verifyCap, steps).value;
    RunKeepsInv(admitCap, verifyCap, steps);
    var g := G.Progress(s.gate);
    if !g.Persisted? {
      step := Front(g, plan);
    } else {
      step := PersistingStep(s, g.r);
    }
  }
}
