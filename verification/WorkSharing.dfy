/** The load generator: workers pull request numbers from one shared atomic counter
    until it has passed the number of requests, then hand in what they recorded. */
module WorkSharing {
  import opened Common

  datatype Sample = Sample(index: nat, status: nat)

  datatype Phase = Pulling | Sending(index: nat) | Done

  datatype Worker = Worker(phase: Phase, out: seq<Sample>)

  datatype State = State(counter: nat, workers: seq<Worker>)

  /** `Pull` is one `fetch_add` and the test of what it returned; `Answer` ends one
      request, with status 0 if it failed. */
  datatype Step = Pull(worker: nat) | Answer(worker: nat, status: nat)

  function Init(concurrency: nat): (s: State)
    ensures |s.workers| == concurrency
  {
    State(0, seq(concurrency, _ => Worker(Pulling, [])))
  }

  predicate Enabled(s: State, step: Step) {
    && step.worker < |s.workers|
    && match step
       case Pull(w) => s.workers[w].phase.Pulling?
       case Answer(w, _) => s.workers[w].phase.Sending?
  }

  function Moved(requests: nat, counter: nat, w: Worker, step: Step): Worker
    requires step.Answer? ==> w.phase.Sending?
  {
    match step
    case Pull(_) => w.(phase := if counter < requests then Sending(counter) else Done)
    case Answer(_, status) => Worker(Pulling, w.out + [Sample(w.phase.index, status)])
  }

  function Apply(requests: nat, s: State, step: Step): (s': State)
    requires Enabled(s, step)
    ensures |s'.workers| == |s.workers|
  {
    State(if step.Pull? then s.counter + 1 else s.counter,
          s.workers[step.worker := Moved(requests, s.counter, s.workers[step.worker], step)])
  }

  /** No schedule is ruled out: any worker can move next, and its request can end with any
      status. */
  lemma AnyWorkerMoves(s: State, w: nat, status: nat)
    requires w < |s.workers|
    ensures Enabled(s, Pull(w)) <==> s.workers[w].phase == Pulling
    ensures Enabled(s, Answer(w, status)) <==> s.workers[w].phase.Sending?
  {
  }

  /** The state after `steps`, if each was enabled in turn. */
  function Run(requests: nat, concurrency: nat, steps: seq<Step>): (r: Option<State>)
    ensures r.Some? ==> |r.value.workers| == concurrency
  {
    if steps == [] then Some(Init(concurrency))
    else
      var before :- Run(requests, concurrency, steps[..|steps| - 1]);
      var last := steps[|steps| - 1];
      if Enabled(before, last) then Some(Apply(requests, before, last)) else None
  }

  // ----- who has which request ----------------------------------------------

  /** How often request `i` occurs in `out`. */
  function Count(out: seq<Sample>, i: nat): nat {
    if out == [] then 0 else Count(out[..|out| - 1], i) + if out[|out| - 1].index == i then 1 else 0
  }

  /** How often a worker has sent or is sending request `i`. */
  function Own(w: Worker, i: nat): nat {
    Count(w.out, i) + if w.phase == Sending(i) then 1 else 0
  }

  /** How often request `i` has been taken, by all workers together. */
  function Taken(ws: seq<Worker>, i: nat): nat {
    if ws == [] then 0 else Taken(ws[..|ws| - 1], i) + Own(ws[|ws| - 1], i)
  }

  function DoneCount(ws: seq<Worker>): nat {
    if ws == [] then 0 else DoneCount(ws[..|ws| - 1]) + if ws[|ws| - 1].phase.Done? then 1 else 0
  }

  function SendingCount(ws: seq<Worker>): nat {
    if ws == [] then 0 else SendingCount(ws[..|ws| - 1]) + if ws[|ws| - 1].phase.Sending? then 1 else 0
  }

  /** How many samples have been recorded. */
  function Recorded(ws: seq<Worker>): nat {
    if ws == [] then 0 else Recorded(ws[..|ws| - 1]) + |ws[|ws| - 1].out|
  }

  lemma {:induction false} ReplaceTaken(ws: seq<Worker>, at: nat, w: Worker, i: nat)
    requires at < |ws|
    ensures Taken(ws[at := w], i) - Own(w, i) == Taken(ws, i) - Own(ws[at], i)
  {
    var init := ws[..|ws| - 1];
    if at < |init| {
      ReplaceTaken(init, at, w, i);
      assert ws[at := w][..|ws| - 1] == init[at := w];
    } else {
      assert ws[at := w][..|ws| - 1] == init;
    }
  }

  lemma {:induction false} ReplaceCounts(ws: seq<Worker>, at: nat, w: Worker)
    requires at < |ws|
    ensures DoneCount(ws[at := w]) + (if ws[at].phase.Done? then 1 else 0)
         == DoneCount(ws) + (if w.phase.Done? then 1 else 0)
    ensures SendingCount(ws[at := w]) + (if ws[at].phase.Sending? then 1 else 0)
         == SendingCount(ws) + (if w.phase.Sending? then 1 else 0)
    ensures Recorded(ws[at := w]) - |w.out| == Recorded(ws) - |ws[at].out|
  {
    var init := ws[..|ws| - 1];
    if at < |init| {
      ReplaceCounts(init, at, w);
      assert ws[at := w][..|ws| - 1] == init[at := w];
    } else {
      assert ws[at := w][..|ws| - 1] == init;
    }
  }

  /** Exactly the requests the counter has passed have been taken, once each. */
  ghost predicate Inv(requests: nat, s: State) {
    && (forall i: nat :: Taken(s.workers, i) == if i < Min(s.counter, requests) then 1 else 0)
    && Recorded(s.workers) + SendingCount(s.workers) == Min(s.counter, requests)
    && s.counter == Min(s.counter, requests) + DoneCount(s.workers)
  }

  lemma {:induction false} NothingYet(ws: seq<Worker>, i: nat)
    requires forall w :: 0 <= w < |ws| ==> ws[w] == Worker(Pulling, [])
    ensures Taken(ws, i) == 0 && Recorded(ws) == 0 && SendingCount(ws) == 0 && DoneCount(ws) == 0
  {
    if ws != [] {
      NothingYet(ws[..|ws| - 1], i);
    }
  }

  lemma InitInv(requests: nat, concurrency: nat)
    ensures Inv(requests, Init(concurrency))
    ensures SendingCount(Init(concurrency).workers) == 0
  {
    NothingYet(Init(concurrency).workers, 0);
    forall i: nat
      ensures Taken(Init(concurrency).workers, i) == 0
    {
      NothingYet(Init(concurrency).workers, i);
    }
  }

  lemma MovedOwns(requests: nat, counter: nat, w: Worker, step: Step, i: nat)
    requires if step.Pull? then w.phase.Pulling? else w.phase.Sending?
    ensures Own(Moved(requests, counter, w, step), i)
         == Own(w, i) + if step.Pull? && counter < requests && counter == i then 1 else 0
  {
    if step.Answer? {
      assert Moved(requests, counter, w, step).out[..|w.out|] == w.out;
    }
  }

  /** What is left to do. */
  function Work(requests: nat, s: State): int {
    2 * (requests + |s.workers| - s.counter) + SendingCount(s.workers)
  }

  /** Every step keeps the invariant and leaves less to do. */
  lemma StepKeepsInv(requests: nat, s: State, step: Step)
    requires Inv(requests, s) && Enabled(s, step)
    ensures Inv(requests, Apply(requests, s, step))
    ensures Work(requests, Apply(requests, s, step)) < Work(requests, s)
  {
    var w := s.workers[step.worker];
    var w' := Moved(requests, s.counter, w, step);
    var s' := Apply(requests, s, step);
    assert s'.workers == s.workers[step.worker := w'];
    forall i: nat
      ensures Taken(s'.workers, i) == if i < Min(s'.counter, requests) then 1 else 0
    {
      assert Taken(s.workers, i) == if i < Min(s.counter, requests) then 1 else 0;
      MovedOwns(requests, s.counter, w, step, i);
      ReplaceTaken(s.workers, step.worker, w', i);
    }
    ReplaceCounts(s.workers, step.worker, w');
  }

  lemma {:induction false} DoneAtMost(ws: seq<Worker>)
    ensures DoneCount(ws) <= |ws|
  {
    if ws != [] {
      DoneAtMost(ws[..|ws| - 1]);
    }
  }

  lemma {:induction false} RunInv(requests: nat, concurrency: nat, steps: seq<Step>)
    requires Run(requests, concurrency, steps).Some?
    ensures Inv(requests, Run(requests, concurrency, steps).value)
    ensures Work(requests, Run(requests, concurrency, steps).value) + |steps| <= 2 * (requests + concurrency)
  {
    if steps == [] {
      InitInv(requests, concurrency);
    } else {
      var before := Run(requests, concurrency, steps[..|steps| - 1]).value;
      RunInv(requests, concurrency, steps[..|steps| - 1]);
      StepKeepsInv(requests, before, steps[|steps| - 1]);
    }
  }

  /** In every state of every interleaving a request has been taken exactly once if
      the counter has passed it, by one worker, and not at all otherwise. */
  lemma TakenAtMostOnce(requests: nat, concurrency: nat, steps: seq<Step>, i: nat)
    requires Run(requests, concurrency, steps).Some?
    ensures var s := Run(requests, concurrency, steps).value;
            Taken(s.workers, i) == if i < requests && i < s.counter then 1 else 0
  {
    RunInv(requests, concurrency, steps);
  }

  predicate Finished(s: State) {
    forall w :: 0 <= w < |s.workers| ==> s.workers[w].phase.Done?
  }

  /** Some worker can move until all are done, and no run is longer than twice the
      requests and workers together. */
  lemma RunsEnd(requests: nat, concurrency: nat, steps: seq<Step>)
    requires Run(requests, concurrency, steps).Some?
    ensures var s := Run(requests, concurrency, steps).value;
            Finished(s) <==> forall step :: !Enabled(s, step)
    ensures |steps| <= 2 * (requests + concurrency)
  {
    var s := Run(requests, concurrency, steps).value;
    if !Finished(s) {
      var w :| 0 <= w < |s.workers| && !s.workers[w].phase.Done?;
      assert Enabled(s, if s.workers[w].phase.Pulling? then Pull(w) else Answer(w, 0));
    }
    RunInv(requests, concurrency, steps);
    DoneAtMost(s.workers);
  }

  // ----- what is recorded ---------------------------------------------------

  /** The statuses worker `w` is answered with in the course of `steps`. */
  function AnswersTo(steps: seq<Step>, w: nat): seq<nat> {
    if steps == [] then []
    else
      var before, last := AnswersTo(steps[..|steps| - 1], w), steps[|steps| - 1];
      if last.Answer? && last.worker == w then before + [last.status] else before
  }

  /** Every worker records the status of every answer it gets, in order. */
  lemma {:induction false} AnswersAreRecorded(requests: nat, concurrency: nat, steps: seq<Step>, w: nat, k: nat)
    requires Run(requests, concurrency, steps).Some? && w < concurrency
    ensures var out := Run(requests, concurrency, steps).value.workers[w].out;
            |out| == |AnswersTo(steps, w)| && (k < |out| ==> out[k].status == AnswersTo(steps, w)[k])
  {
    if steps != [] {
      AnswersAreRecorded(requests, concurrency, steps[..|steps| - 1], w, k);
    }
  }

  /** And with it the number of the request it was sending: that of its last pull. */
  lemma AnswerIsForPull(requests: nat, s: State, step: Step)
    requires Enabled(s, step)
    ensures var before, after := s.workers[step.worker], Apply(requests, s, step).workers[step.worker];
            && (step.Pull? ==>
                  && after.out == before.out
                  && (if s.counter < requests then after.phase == Sending(s.counter) else after.phase.Done?))
            && (step.Answer? ==> after.out == before.out + [Sample(before.phase.index, step.status)])
  {
  }

  // ----- the merged results -------------------------------------------------

  function Outs(ws: seq<Worker>): (outs: seq<seq<Sample>>)
    ensures |outs| == |ws|
  {
    seq(|ws|, i requires 0 <= i < |ws| => ws[i].out)
  }

  /** Joining the workers in the order they were spawned. */
  method Merge(outs: seq<seq<Sample>>) returns (results: seq<Sample>)
    ensures results == Flat(outs)
  {
    results := [];
    for w := 0 to |outs|
      invariant results == Flat(outs[..w])
    {
      FlatSnoc(outs[..w], outs[w]);
      assert outs[..w + 1] == outs[..w] + [outs[w]];
      results := results + outs[w];
    }
    assert outs[..|outs|] == outs;
  }

  lemma {:induction false} CountAppend(a: seq<Sample>, b: seq<Sample>, i: nat)
    ensures Count(a + b, i) == Count(a, i) + Count(b, i)
  {
    if b == [] {
      assert a + b == a;
    } else {
      CountAppend(a, b[..|b| - 1], i);
      assert (a + b)[..|a + b| - 1] == a + b[..|b| - 1];
    }
  }

  lemma {:induction false} MergedCounts(ws: seq<Worker>, i: nat)
    requires forall w :: 0 <= w < |ws| ==> ws[w].phase.Done?
    ensures Count(Flat(Outs(ws)), i) == Taken(ws, i)
    ensures |Flat(Outs(ws))| == Recorded(ws)
    ensures DoneCount(ws) == |ws| && SendingCount(ws) == 0
  {
    if ws != [] {
      var init, last := ws[..|ws| - 1], ws[|ws| - 1];
      MergedCounts(init, i);
      assert Outs(ws) == Outs(init) + [last.out];
      FlatSnoc(Outs(init), last.out);
      CountAppend(Flat(Outs(init)), last.out, i);
    }
  }

  /** With at least one worker, every run that has finished has sent each request
      exactly once and nothing else: one sample for each in the merged results, and
      the counter has gone past the requests once for every worker. */
  lemma ExactlyOnce(requests: nat, concurrency: nat, steps: seq<Step>, i: nat)
    requires concurrency >= 1
    requires Run(requests, concurrency, steps).Some? && Finished(Run(requests, concurrency, steps).value)
    ensures var s := Run(requests, concurrency, steps).value;
            var results := Flat(Outs(s.workers));
            && s.counter == requests + concurrency
            && |results| == requests
            && Count(results, i) == if i < requests then 1 else 0
  {
    var s := Run(requests, concurrency, steps).value;
    RunInv(requests, concurrency, steps);
    MergedCounts(s.workers, i);
  }
}
