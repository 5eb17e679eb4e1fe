/** Persist before release: the uploads of one request, their retries, and the
    StoreCts call beside them, interleaved in any order, with other requests
    writing to the same store. An upload may reach the store and still be reported
    as failed, and may reach it after its caller has given up on it. */
module Persist {
  import opened Common
  import opened Retry
  import Gate

  /** One object to upload: what is written where. */
  datatype Item = Item(path: Bytes, data: Bytes)

  datatype Entry = Entry(utype: byte, value: Bytes, securityZone: byte)

  /** The body of a StoreCts call. */
  datatype StoreCtsRequest = StoreCtsRequest(cts: seq<Entry>, chainId: u32)

  datatype Plan = Plan(items: seq<Item>, request: StoreCtsRequest, storage: bool, storeCts: bool,
                       retry: RetryConfig, ctsRetries: nat)

  datatype Phase =
    | Ready
    | InFlight(written: bool)
    | Backoff
    | Stored
    | Failed(error: StorageError)
    | Cancelled

  /** `calls` counts the attempts issued, `failures` those reported back as failed. */
  datatype Upload = Upload(phase: Phase, failures: nat, calls: nat)

  datatype External = ExtRunning | ExtOk | ExtErr(error: StorageError)

  datatype Cts = CtsReady | CtsInFlight(taken: bool) | CtsBackoff | CtsOk | CtsErr

  datatype Answer = Pending | Released | Refused(status: nat) | Dropped

  datatype Write = Write(item: Item, mine: bool)

  /** `log` is every write the store has seen, `taken` every StoreCts call of this
      request the endpoint has accepted. */
  datatype State = State(uploads: seq<Upload>, external: External, cts: Cts, ctsLeft: nat, ctsCalls: nat,
                         log: seq<Write>, taken: seq<StoreCtsRequest>, answer: Answer)

  datatype Step =
    | Issue(i: nat)
    | Land(i: nat)
    | LateLand(i: nat)
    | Ack(i: nat)
    | FailCall(i: nat, error: StorageError)
    | Wake(i: nat)
    | JoinOk
    | JoinErr(i: nat)
    | CtsIssue
    | CtsLand
    | CtsLateLand
    | CtsAck
    | CtsFail
    | CtsWake
    | Respond
    | Disconnect
    | Foreign(item: Item)

  function Init(plan: Plan): State {
    State(seq(|plan.items|, _ => Upload(Ready, 0, 0)),
          if plan.storage then ExtRunning else ExtOk,
          if plan.storeCts then CtsReady else CtsOk, plan.ctsRetries, 0, [], [], Pending)
  }

  /** The status a storage failure is answered with. */
  function StatusOf(error: StorageError): nat {
    match error
    case Timeout => 504
    case Network => 502
    case PermissionDenied => 403
    case NotFound => 404
    case Serialization => 400
    case _ => 500
  }

  /** The status a request is refused with when an upload has failed for good, by the HTTP
      status the storage answered the upload with, if it did. */
  lemma AnsweredAs(status: Option<nat>)
    ensures StatusOf(ClassifyError(status))
         == if status in {Some(401), Some(403)} then 403
            else if status == Some(404) then 404
            else if status == Some(408) then 504
            else if status == None || status == Some(429) || 500 <= status.value <= 599 then 502
            else 500
  {
  }

  function RefusalStatus(s: State): (status: nat)
    ensures status in Gate.PERSIST_STATUSES && status != 200
  {
    if s.external.ExtErr? then StatusOf(s.external.error) else 500
  }

  predicate Enabled(plan: Plan, s: State, step: Step)
    requires |s.uploads| == |plan.items|
  {
    match step
    case Issue(i) => s.answer.Pending? && s.external.ExtRunning? && i < |s.uploads| && s.uploads[i].phase.Ready?
    case Land(i) => i < |s.uploads| && s.uploads[i].phase == InFlight(false)
    case LateLand(i) => i < |s.uploads| && s.uploads[i].calls > 0
    case Ack(i) => s.answer.Pending? && i < |s.uploads| && s.uploads[i].phase == InFlight(true)
    case FailCall(i, _) => s.answer.Pending? && i < |s.uploads| && s.uploads[i].phase.InFlight?
    case Wake(i) => s.answer.Pending? && i < |s.uploads| && s.uploads[i].phase.Backoff?
    case JoinOk =>
      s.answer.Pending? && s.external.ExtRunning? && forall i :: 0 <= i < |s.uploads| ==> s.uploads[i].phase.Stored?
    case JoinErr(i) =>
      s.answer.Pending? && s.external.ExtRunning? && i < |s.uploads| && s.uploads[i].phase.Failed?
    case CtsIssue => s.answer.Pending? && s.cts.CtsReady?
    case CtsLand => s.cts == CtsInFlight(false)
    case CtsLateLand => s.ctsCalls > 0
    case CtsAck => s.answer.Pending? && s.cts == CtsInFlight(true)
    case CtsFail => s.answer.Pending? && s.cts.CtsInFlight?
    case CtsWake => s.answer.Pending? && s.cts.CtsBackoff?
    case Respond => s.answer.Pending? && !s.external.ExtRunning? && (s.cts.CtsOk? || s.cts.CtsErr?)
    case Disconnect => s.answer.Pending?
    case Foreign(_) => true
  }

  function SetPhase(s: State, i: nat, phase: Phase): State
    requires i < |s.uploads|
  {
    s.(uploads := s.uploads[i := s.uploads[i].(phase := phase)])
  }

  function Writes(plan: Plan, s: State, i: nat): State
    requires i < |plan.items|
  {
    s.(log := s.log + [Write(plan.items[i], true)])
  }

  function Cancel(u: Upload): Upload {
    if u.phase.Stored? || u.phase.Failed? then u else u.(phase := Cancelled)
  }

  function CancelAll(us: seq<Upload>): seq<Upload> {
    seq(|us|, i requires 0 <= i < |us| => Cancel(us[i]))
  }

  function Apply(plan: Plan, s: State, step: Step): (s': State)
    requires |s.uploads| == |plan.items| && Enabled(plan, s, step)
    ensures |s'.uploads| == |plan.items|
  {
    match step
    case Issue(i) =>
      s.(uploads := s.uploads[i := s.uploads[i].(phase := InFlight(false), calls := s.uploads[i].calls + 1)])
    case Land(i) => Writes(plan, SetPhase(s, i, InFlight(true)), i)
    case LateLand(i) => Writes(plan, s, i)
    case Ack(i) => SetPhase(s, i, Phase.Stored)
    case FailCall(i, e) =>
      var u := s.uploads[i];
      if Retries(plan.retry, Fails(e), u.failures)
      then s.(uploads := s.uploads[i := u.(phase := Backoff, failures := u.failures + 1)])
      else s.(uploads := s.uploads[i := u.(phase := Failed(e), failures := u.failures + 1)])
    case Wake(i) => SetPhase(s, i, Ready)
    case JoinOk => s.(external := ExtOk)
    case JoinErr(i) => s.(external := ExtErr(s.uploads[i].phase.error), uploads := CancelAll(s.uploads))
    case CtsIssue => s.(cts := CtsInFlight(false), ctsCalls := s.ctsCalls + 1)
    case CtsLand => s.(cts := CtsInFlight(true), taken := s.taken + [plan.request])
    case CtsLateLand => s.(taken := s.taken + [plan.request])
    case CtsAck => s.(cts := CtsOk)
    case CtsFail => if s.ctsLeft == 0 then s.(cts := CtsErr) else s.(cts := CtsBackoff, ctsLeft := s.ctsLeft - 1)
    case CtsWake => s.(cts := CtsReady)
    case Respond =>
      // Both must have succeeded; the storage failure is reported first.
      s.(answer := if s.external.ExtErr? || s.cts.CtsErr? then Refused(RefusalStatus(s)) else Released)
    case Disconnect => s.(answer := Dropped)
    case Foreign(item) => s.(log := s.log + [Write(item, false)])
  }

  /** What is not the request's to decide can always happen: other writers; an upload that
      lands, even late, any number of times; a failure of any kind of any call under way,
      landed or not; the same for StoreCts; a client that hangs up. */
  lemma AnythingCanHappen(plan: Plan, s: State, i: nat, error: StorageError, item: Item)
    requires |s.uploads| == |plan.items|
    ensures Enabled(plan, s, Foreign(item))
    ensures i < |s.uploads| && s.uploads[i].calls > 0 ==> Enabled(plan, s, LateLand(i))
    ensures i < |s.uploads| && s.uploads[i].phase == InFlight(false) ==> Enabled(plan, s, Land(i))
    ensures s.ctsCalls > 0 ==> Enabled(plan, s, CtsLateLand)
    ensures s.answer.Pending? ==>
              && Enabled(plan, s, Disconnect)
              && (i < |s.uploads| && s.uploads[i].phase.InFlight? ==> Enabled(plan, s, FailCall(i, error)))
              && (s.cts.CtsInFlight? ==> Enabled(plan, s, CtsFail))
  {
  }

  function Run(plan: Plan, steps: seq<Step>): (r: Option<State>)
    ensures r.Some? ==> |r.value.uploads| == |plan.items|
  {
    if steps == [] then Some(Init(plan))
    else
      var before :- Run(plan, steps[..|steps| - 1]);
      var last := steps[|steps| - 1];
      if Enabled(plan, before, last) then Some(Apply(plan, before, last)) else None
  }

  // ----- the store ----------------------------------------------------------

  /** What the store holds at `path`: the data of the last write to it. */
  function Holds(log: seq<Write>, path: Bytes): Option<Bytes> {
    if log == [] then None
    else
      var last := log[|log| - 1];
      if last.item.path == path then Some(last.item.data) else Holds(log[..|log| - 1], path)
  }

  predicate Wrote(log: seq<Write>, item: Item) {
    Write(item, true) in log
  }

  predicate NoForeignWrite(log: seq<Write>, path: Bytes) {
    forall w :: w in log && w.item.path == path ==> w.mine
  }

  /** `path` holds one of `items` that belong there. */
  predicate HoldsOwn(items: seq<Item>, log: seq<Write>, path: Bytes) {
    exists j :: 0 <= j < |items| && items[j].path == path && Holds(log, path) == Some(items[j].data)
  }

  /** Upserts: a path holds the data of the last write to it. */
  lemma {:induction false} HoldsLastWrite(log: seq<Write>, path: Bytes, data: Bytes)
    ensures Holds(log, path) == Some(data)
       <==> exists k :: && 0 <= k < |log| && log[k].item == Item(path, data)
                        && forall j :: k < j < |log| ==> log[j].item.path != path
  {
    if log != [] {
      var init, last := log[..|log| - 1], log[|log| - 1];
      HoldsLastWrite(init, path, data);
      if last.item.path != path {
        if k :| && 0 <= k < |init| && init[k].item == Item(path, data)
                && forall j :: k < j < |init| ==> init[j].item.path != path {
          assert log[k].item == Item(path, data) && forall j :: k < j < |log| ==> log[j].item.path != path;
        }
        if k :| && 0 <= k < |log| && log[k].item == Item(path, data)
                && forall j :: k < j < |log| ==> log[j].item.path != path {
          assert init[k].item == Item(path, data);
          assert forall j :: k < j < |init| ==> init[j].item.path == log[j].item.path;
        }
      } else {
        assert Holds(log, path) == Some(last.item.data);
        assert last.item == Item(path, data) <==> last.item.data == data;
      }
    }
  }

  /** A path somebody has written to holds the data of one of the writes to it. */
  lemma {:induction false} HoldsSomeWrite(log: seq<Write>, w: Write) returns (v: Write)
    requires w in log
    ensures v in log && v.item.path == w.item.path && Holds(log, w.item.path) == Some(v.item.data)
  {
    var init, last := log[..|log| - 1], log[|log| - 1];
    if last.item.path == w.item.path {
      v := last;
    } else {
      assert log == init + [last];
      v := HoldsSomeWrite(init, w);
    }
  }

  /** What a path holds is the data of some write to it. */
  lemma {:induction false} HeldWasWritten(log: seq<Write>, path: Bytes) returns (w: Write)
    requires Holds(log, path).Some?
    ensures w in log && w.item.path == path && Holds(log, path) == Some(w.item.data)
  {
    var init, last := log[..|log| - 1], log[|log| - 1];
    if last.item.path == path {
      w := last;
    } else {
      w := HeldWasWritten(init, path);
    }
  }

  // ----- what every step keeps ----------------------------------------------

  /** Until it fails for good an upload has failed at most `maxRetries` times, and
      only an attempt not yet reported on makes its calls outnumber its failures. */
  predicate Attempts(plan: Plan, u: Upload) {
    && u.failures <= u.calls <= u.failures + 1
    && (u.phase.Ready? || u.phase.Backoff? || u.phase.Failed? ==> u.calls == u.failures)
    && (u.phase.InFlight? || u.phase.Stored? ==> u.calls == u.failures + 1)
    && (plan.retry.maxRetries < TWO_32 - 1 ==>
          u.failures <= plan.retry.maxRetries + if u.phase.Failed? then 1 else 0)
  }

  /** An upload counts as stored only after it reached the store, and fails only
      where the retry loop gives up. */
  predicate UploadSound(plan: Plan, log: seq<Write>, i: nat, u: Upload)
    requires i < |plan.items|
  {
    && (u.phase == InFlight(true) || u.phase.Stored? ==> Wrote(log, plan.items[i]))
    && Attempts(plan, u)
    && (u.phase.Failed? ==> u.failures > 0 && !Retries(plan.retry, Fails(u.phase.error), u.failures - 1))
  }

  predicate FailedWith(uploads: seq<Upload>, i: nat, error: StorageError) {
    i < |uploads| && uploads[i].phase == Failed(error)
  }

  /** An upload nobody works on any more. */
  predicate Settled(u: Upload) {
    u.phase.Stored? || u.phase.Failed? || u.phase.Cancelled?
  }

  ghost predicate Inv(plan: Plan, s: State) {
    && |s.uploads| == |plan.items|
    && (forall i :: 0 <= i < |s.uploads| ==> UploadSound(plan, s.log, i, s.uploads[i]))
    && (forall w :: w in s.log && w.mine ==> w.item in plan.items)
    && (forall call :: call in s.taken ==> call == plan.request)
    && (plan.storage && s.external.ExtOk? ==> forall i :: 0 <= i < |s.uploads| ==> Wrote(s.log, plan.items[i]))
    && (plan.storeCts && (s.cts == CtsInFlight(true) || s.cts.CtsOk?) ==> plan.request in s.taken)
    && (s.external.ExtRunning? ==> forall i :: 0 <= i < |s.uploads| ==> !s.uploads[i].phase.Cancelled?)
    && (s.answer.Released? ==> s.external.ExtOk? && s.cts.CtsOk?)
    && (s.external.ExtErr? ==> exists i: nat :: FailedWith(s.uploads, i, s.external.error))
    && (s.external.ExtErr? ==> forall i :: 0 <= i < |s.uploads| ==> Settled(s.uploads[i]))
    && (s.cts.CtsErr? ==> s.ctsLeft == 0)
    && (plan.storeCts ==> s.ctsCalls + s.ctsLeft
                          == plan.ctsRetries + if s.cts.CtsReady? || s.cts.CtsBackoff? then 0 else 1)
    && (s.answer.Refused? ==> s.answer.status == RefusalStatus(s) && (s.external.ExtErr? || s.cts.CtsErr?))
  }

  lemma WriteKeeps(plan: Plan, s: State, w: Write)
    requires Inv(plan, s) && (w.mine ==> w.item in plan.items)
    ensures Inv(plan, s.(log := s.log + [w]))
    ensures Wrote(s.log + [w], w.item) || !w.mine
  {
  }

  lemma UploadKeeps(plan: Plan, s: State, i: nat, u: Upload)
    requires Inv(plan, s) && i < |s.uploads|
    requires UploadSound(plan, s.log, i, u) && !u.phase.Cancelled? && !Settled(s.uploads[i])
    ensures Inv(plan, s.(uploads := s.uploads[i := u]))
  {
  }

  lemma JoinKeeps(plan: Plan, s: State, step: Step)
    requires Inv(plan, s) && Enabled(plan, s, step) && (step.JoinOk? || step.JoinErr?)
    ensures Inv(plan, Apply(plan, s, step))
  {
    if step.JoinOk? {
      forall i | 0 <= i < |s.uploads|
        ensures Wrote(s.log, plan.items[i])
      {
        assert UploadSound(plan, s.log, i, s.uploads[i]);
      }
    } else {
      var s' := Apply(plan, s, step);
      assert FailedWith(s'.uploads, step.i, s'.external.error);
    }
  }

  /** Steps of the StoreCts side and of the answer: the store is left alone. */
  lemma AnswerKeeps(plan: Plan, s: State, step: Step)
    requires Inv(plan, s) && Enabled(plan, s, step)
    requires || step.CtsIssue? || step.CtsLand? || step.CtsLateLand? || step.CtsAck? || step.CtsFail? || step.CtsWake?
             || step.Respond? || step.Disconnect?
    ensures Inv(plan, Apply(plan, s, step))
  {
    hide UploadSound, FailedWith, Wrote;
  }

  lemma LandKeeps(plan: Plan, s: State, i: nat)
    requires Inv(plan, s) && Enabled(plan, s, Land(i))
    ensures Inv(plan, Apply(plan, s, Land(i)))
  {
    var w := Write(plan.items[i], true);
    WriteKeeps(plan, s, w);
    UploadKeeps(plan, s.(log := s.log + [w]), i, s.uploads[i].(phase := InFlight(true)));
  }

  /** Steps of one upload that leave the store alone. */
  lemma MoveIsSound(plan: Plan, s: State, step: Step)
    requires Inv(plan, s) && Enabled(plan, s, step)
    requires step.Issue? || step.Ack? || step.FailCall? || step.Wake?
    ensures var u := Apply(plan, s, step).uploads[step.i];
            && UploadSound(plan, s.log, step.i, u) && !u.phase.Cancelled? && !Settled(s.uploads[step.i])
            && Apply(plan, s, step) == s.(uploads := s.uploads[step.i := u])
  {
    var i := step.i;
    assert UploadSound(plan, s.log, i, s.uploads[i]);
    hide Inv, Wrote;
    if plan.retry.maxRetries < TWO_32 - 1 {
      CountedExact(s.uploads[i].failures + 1);
    }
  }

  lemma MoveKeeps(plan: Plan, s: State, step: Step)
    requires Inv(plan, s) && Enabled(plan, s, step)
    requires step.Issue? || step.Ack? || step.FailCall? || step.Wake?
    ensures Inv(plan, Apply(plan, s, step))
  {
    MoveIsSound(plan, s, step);
    assert |s.uploads| == |plan.items|;
    hide Inv, UploadSound, Apply;
    UploadKeeps(plan, s, step.i, Apply(plan, s, step).uploads[step.i]);
  }

  lemma StepKeepsInv(plan: Plan, s: State, step: Step)
    requires Inv(plan, s) && Enabled(plan, s, step)
    ensures Inv(plan, Apply(plan, s, step))
  {
    assert |s.uploads| == |plan.items|;
    match step {
      case LateLand(i) => WriteKeeps(plan, s, Write(plan.items[i], true));
      case Foreign(item) => WriteKeeps(plan, s, Write(item, false));
      case Land(i) =>
        hide Inv, Apply;
        LandKeeps(plan, s, i);
      case Issue(_) =>
        hide Inv, Apply;
        MoveKeeps(plan, s, step);
      case Ack(_) =>
        hide Inv, Apply;
        MoveKeeps(plan, s, step);
      case Wake(_) =>
        hide Inv, Apply;
        MoveKeeps(plan, s, step);
      case FailCall(_, _) =>
        hide Inv, Apply;
        MoveKeeps(plan, s, step);
      case JoinOk =>
        hide Inv, Apply;
        JoinKeeps(plan, s, step);
      case JoinErr(_) =>
        hide Inv, Apply;
        JoinKeeps(plan, s, step);
      case _ =>
        hide Inv, Apply;
        AnswerKeeps(plan, s, step);
    }
  }

  lemma {:induction false} RunKeepsInv(plan: Plan, steps: seq<Step>)
    requires Run(plan, steps).Some?
    ensures Inv(plan, Run(plan, steps).value)
  {
    if steps != [] {
      RunKeepsInv(plan, steps[..|steps| - 1]);
      StepKeepsInv(plan, Run(plan, steps[..|steps| - 1]).value, steps[|steps| - 1]);
    }
  }

  /** In every run that ends in a success answer, every object of the request has
      been written to the store and every StoreCts call accepted from it lists all
      its entries in order under its chain, at least one having been accepted; and unless another
      request writes to a path, the store holds there an object of this request
      (colliding paths may hold any of the colliding objects). */
  lemma PersistBeforeRelease(plan: Plan, steps: seq<Step>)
    requires Run(plan, steps).Some? && Run(plan, steps).value.answer.Released?
    ensures var s := Run(plan, steps).value;
            && (forall w :: w in s.log && w.mine ==> w.item in plan.items)
            && (plan.storeCts ==> s.taken != [] && forall call :: call in s.taken ==> call == plan.request)
            && (plan.storage ==> forall i :: 0 <= i < |plan.items| ==>
                  && Wrote(s.log, plan.items[i])
                  && (NoForeignWrite(s.log, plan.items[i].path) ==> HoldsOwn(plan.items, s.log, plan.items[i].path)))
  {
    RunKeepsInv(plan, steps);
    var s := Run(plan, steps).value;
    if plan.storage {
      forall i | 0 <= i < |plan.items| && NoForeignWrite(s.log, plan.items[i].path)
        ensures HoldsOwn(plan.items, s.log, plan.items[i].path)
      {
        assert Wrote(s.log, plan.items[i]);
        var v := HoldsSomeWrite(s.log, Write(plan.items[i], true));
        assert v.mine && v.item in plan.items;
        var j :| 0 <= j < |plan.items| && plan.items[j] == v.item;
      }
    }
  }

  /** However the calls interleave and whatever they answer, no upload is attempted
      more than `maxRetries + 1` times (a budget at the largest 32-bit value aside)
      and StoreCts is not called more than once beyond its retries. */
  lemma CallsBounded(plan: Plan, steps: seq<Step>, i: nat)
    requires Run(plan, steps).Some? && i < |plan.items|
    ensures plan.retry.maxRetries < TWO_32 - 1 ==>
              Run(plan, steps).value.uploads[i].calls <= plan.retry.maxRetries + 1
    ensures plan.storeCts ==> Run(plan, steps).value.ctsCalls <= plan.ctsRetries + 1
  {
    RunKeepsInv(plan, steps);
    assert UploadSound(plan, Run(plan, steps).value.log, i, Run(plan, steps).value.uploads[i]);
  }

  /** Its error is not one to retry, or it has failed once more than it may be retried. */
  predicate GivesUp(plan: Plan, u: Upload, error: StorageError) {
    || error.Configuration? || error.PermissionDenied? || error.NotFound? || error.Serialization?
    || (plan.retry.maxRetries < TWO_32 - 1 && u.failures == plan.retry.maxRetries + 1)
  }

  lemma FailedGivesUp(plan: Plan, log: seq<Write>, i: nat, u: Upload)
    requires i < |plan.items| && UploadSound(plan, log, i, u) && u.phase.Failed?
    ensures GivesUp(plan, u, u.phase.error)
  {
    if u.failures - 1 < TWO_32 - 1 {
      RetriesExactly(plan.retry, Fails(u.phase.error), u.failures - 1);
    }
  }

  /** A refusal is never made up. Either an upload has failed for good, with an
      error that is not retried or after its last retry, and the status is that
      error's; or StoreCts has failed with no retry left and the status is 500. */
  lemma RefusedMeansFailed(plan: Plan, steps: seq<Step>)
    requires Run(plan, steps).Some? && Run(plan, steps).value.answer.Refused?
    ensures var s := Run(plan, steps).value;
            if s.external.ExtErr? then
              exists i: nat ::
                && FailedWith(s.uploads, i, s.external.error) && GivesUp(plan, s.uploads[i], s.external.error)
                && s.answer.status == (if s.external.error.Timeout? then 504
                                       else if s.external.error.Network? then 502
                                       else if s.external.error.PermissionDenied? then 403
                                       else if s.external.error.NotFound? then 404
                                       else if s.external.error.Serialization? then 400
                                       else 500)
            else && s.cts.CtsErr? && s.answer.status == 500
                 && s.ctsLeft == 0 && (plan.storeCts ==> s.ctsCalls == plan.ctsRetries + 1)
  {
    RunKeepsInv(plan, steps);
    var s := Run(plan, steps).value;
    if s.external.ExtErr? {
      var i: nat :| FailedWith(s.uploads, i, s.external.error);
      assert UploadSound(plan, s.log, i, s.uploads[i]);
      FailedGivesUp(plan, s.log, i, s.uploads[i]);
    }
  }

  /** Once an upload has failed for good the others are left where they are: each is
      stored, failed or dropped, and makes no further call. */
  lemma FailureStopsUploads(plan: Plan, steps: seq<Step>, i: nat, step: Step)
    requires Run(plan, steps).Some? && Run(plan, steps).value.external.ExtErr? && i < |plan.items|
    requires step.Issue? || step.Land? || step.Ack? || step.FailCall? || step.Wake?
    ensures var phase := Run(plan, steps).value.uploads[i].phase;
            phase.Stored? || phase.Failed? || phase.Cancelled?
    ensures !Enabled(plan, Run(plan, steps).value, step)
  {
    RunKeepsInv(plan, steps);
    hide Run;
    var s := Run(plan, steps).value;
    assert Settled(s.uploads[i]);
    assert step.i < |s.uploads| ==> Settled(s.uploads[step.i]);
  }

  // ----- every request is answered ------------------------------------------

  /** A step of the request itself: no disconnect, no other writer, and no write that
      reaches the store after its call has been reported on. */
  predicate Internal(step: Step) {
    !step.Disconnect? && !step.Foreign? && !step.LateLand? && !step.CtsLateLand?
  }

  /** Steps an upload can still take before its next failure or its end. */
  function PhaseWork(phase: Phase): nat {
    match phase
    case Backoff => 4
    case Ready => 3
    case InFlight(written) => if written then 1 else 2
    case _ => 0
  }

  function UploadWork(plan: Plan, u: Upload): int {
    5 * (plan.retry.maxRetries + 1 - u.failures) + PhaseWork(u.phase)
  }

  function UploadsWork(plan: Plan, us: seq<Upload>): int {
    if us == [] then 0 else UploadsWork(plan, us[..|us| - 1]) + UploadWork(plan, us[|us| - 1])
  }

  function CtsWork(cts: Cts, left: nat): nat {
    5 * left + match cts
               case CtsBackoff => 4
               case CtsReady => 3
               case CtsInFlight(taken) => if taken then 1 else 2
               case _ => 0
  }

  /** What is left to do. */
  function Work(plan: Plan, s: State): int {
    UploadsWork(plan, s.uploads) + CtsWork(s.cts, s.ctsLeft)
    + (if s.external.ExtRunning? then 1 else 0) + (if s.answer.Pending? then 1 else 0)
  }

  lemma {:induction false} UploadsWorkUpdate(plan: Plan, us: seq<Upload>, i: nat, u: Upload)
    requires i < |us|
    ensures UploadsWork(plan, us[i := u]) == UploadsWork(plan, us) - UploadWork(plan, us[i]) + UploadWork(plan, u)
  {
    var n := |us| - 1;
    if i < n {
      UploadsWorkUpdate(plan, us[..n], i, u);
      assert us[i := u][..n] == us[..n][i := u];
    } else {
      assert us[i := u][..n] == us[..n];
    }
  }

  lemma {:induction false} CancelUsesWork(plan: Plan, us: seq<Upload>)
    ensures UploadsWork(plan, CancelAll(us)) <= UploadsWork(plan, us)
  {
    if us != [] {
      CancelUsesWork(plan, us[..|us| - 1]);
      assert CancelAll(us)[..|us| - 1] == CancelAll(us[..|us| - 1]);
    }
  }

  /** With a budget that is not the largest 32-bit value nothing goes negative. */
  lemma {:induction false} UploadsWorkPositive(plan: Plan, us: seq<Upload>)
    requires plan.retry.maxRetries < TWO_32 - 1 && forall i :: 0 <= i < |us| ==> Attempts(plan, us[i])
    ensures UploadsWork(plan, us) >= 0
  {
    if us != [] {
      UploadsWorkPositive(plan, us[..|us| - 1]);
    }
  }

  lemma WorkPositive(plan: Plan, s: State)
    requires Inv(plan, s) && plan.retry.maxRetries < TWO_32 - 1
    ensures Work(plan, s) >= 0
  {
    forall i | 0 <= i < |s.uploads|
      ensures Attempts(plan, s.uploads[i])
    {
      assert UploadSound(plan, s.log, i, s.uploads[i]);
    }
    UploadsWorkPositive(plan, s.uploads);
  }

  predicate UploadStep(step: Step) {
    step.Issue? || step.Land? || step.Ack? || step.FailCall? || step.Wake?
  }

  /** An upload's own step changes only that upload, and uses up its work. */
  lemma UploadStepUsesWork(plan: Plan, s: State, step: Step)
    requires |s.uploads| == |plan.items| && Enabled(plan, s, step) && UploadStep(step)
    ensures var s' := Apply(plan, s, step);
            && s'.uploads == s.uploads[step.i := s'.uploads[step.i]]
            && UploadWork(plan, s'.uploads[step.i]) < UploadWork(plan, s.uploads[step.i])
            && CtsWork(s'.cts, s'.ctsLeft) == CtsWork(s.cts, s.ctsLeft)
            && s'.external == s.external && s'.answer == s.answer
  {
  }

  lemma OtherStepUsesWork(plan: Plan, s: State, step: Step)
    requires |s.uploads| == |plan.items| && Enabled(plan, s, step) && Internal(step) && !UploadStep(step)
    ensures Work(plan, Apply(plan, s, step)) < Work(plan, s)
  {
    hide UploadsWork;
    CancelUsesWork(plan, s.uploads);
  }

  /** Every step of the request itself uses up work, however it turns out. */
  lemma StepUsesWork(plan: Plan, s: State, step: Step)
    requires Inv(plan, s) && Enabled(plan, s, step) && Internal(step)
    ensures Work(plan, Apply(plan, s, step)) < Work(plan, s)
  {
    assert |s.uploads| == |plan.items|;
    if UploadStep(step) {
      UploadStepUsesWork(plan, s, step);
      UploadsWorkUpdate(plan, s.uploads, step.i, Apply(plan, s, step).uploads[step.i]);
      hide Inv, UploadsWork, UploadWork, CtsWork, Apply, Enabled;
    } else {
      OtherStepUsesWork(plan, s, step);
    }
  }

  /** The next step of an upload under way. */
  function NextOf(u: Upload, i: nat): Step
    requires !u.phase.Stored? && !u.phase.Failed? && !u.phase.Cancelled?
  {
    match u.phase
    case Ready => Issue(i)
    case InFlight(written) => if written then Ack(i) else Land(i)
    case Backoff => Wake(i)
  }

  /** Until the request is answered it has a step of its own to take. */
  lemma Progress(plan: Plan, s: State) returns (step: Step)
    requires Inv(plan, s) && s.answer.Pending?
    ensures Internal(step) && Enabled(plan, s, step)
  {
    if s.external.ExtRunning? {
      if i: nat :| i < |s.uploads| && s.uploads[i].phase.Failed? {
        step := JoinErr(i);
      } else if i: nat :| i < |s.uploads| && !s.uploads[i].phase.Stored? {
        step := NextOf(s.uploads[i], i);
      } else {
        step := JoinOk;
      }
    } else {
      step := match s.cts
              case CtsReady => CtsIssue
              case CtsInFlight(taken) => if taken then CtsAck else CtsLand
              case CtsBackoff => CtsWake
              case _ => Respond;
    }
  }

  /** The steps of a run after state `s`. */
  function RunFrom(plan: Plan, s: State, steps: seq<Step>): (r: Option<State>)
    requires |s.uploads| == |plan.items|
    ensures r.Some? ==> |r.value.uploads| == |plan.items|
  {
    if steps == [] then Some(s)
    else
      var before :- RunFrom(plan, s, steps[..|steps| - 1]);
      var last := steps[|steps| - 1];
      if Enabled(plan, before, last) then Some(Apply(plan, before, last)) else None
  }

  /** From any reachable state, a request left to itself takes no more steps than
      there is work, whatever its calls answer, and where it can go no further it
      has been answered (or its client has gone). The budget must not be the largest
      32-bit value, at which retries never end. */
  lemma {:induction false} EveryRequestIsAnswered(plan: Plan, s: State, steps: seq<Step>)
    requires plan.retry.maxRetries < TWO_32 - 1
    requires Inv(plan, s) && RunFrom(plan, s, steps).Some? && forall i :: 0 <= i < |steps| ==> Internal(steps[i])
    ensures var end := RunFrom(plan, s, steps).value;
            && Inv(plan, end) && 0 <= Work(plan, end) && |steps| + Work(plan, end) <= Work(plan, s)
            && ((forall step :: Internal(step) ==> !Enabled(plan, end, step)) ==> !end.answer.Pending?)
  {
    assert |s.uploads| == |plan.items|;
    hide Inv, Work, Enabled, Apply;
    if steps != [] {
      var init, last := steps[..|steps| - 1], steps[|steps| - 1];
      EveryRequestIsAnswered(plan, s, init);
      StepKeepsInv(plan, RunFrom(plan, s, init).value, last);
      StepUsesWork(plan, RunFrom(plan, s, init).value, last);
    }
    var end := RunFrom(plan, s, steps).value;
    WorkPositive(plan, end);
    if end.answer.Pending? {
      var step := Progress(plan, end);
    }
  }

  // ----- success can be reached ---------------------------------------------

  lemma Then(plan: Plan, steps: seq<Step>, step: Step)
    requires Run(plan, steps).Some? && Enabled(plan, Run(plan, steps).value, step)
    ensures Run(plan, steps + [step]) == Some(Apply(plan, Run(plan, steps).value, step))
  {
    assert (steps + [step])[..|steps|] == steps;
  }

  predicate OnlyMine(log: seq<Write>) {
    forall w :: w in log ==> w.mine
  }

  /** The first `k` uploads have gone through, and nothing else has happened. */
  predicate FirstStored(plan: Plan, s: State, k: nat) {
    && |s.uploads| == |plan.items|
    && (forall i :: 0 <= i < |s.uploads| ==>
          if i < k then s.uploads[i].phase.Stored? else s.uploads[i].phase.Ready?)
    && s.external == Init(plan).external && s.cts == Init(plan).cts && s.answer.Pending? && OnlyMine(s.log)
  }

  lemma UploadOne(plan: Plan, steps: seq<Step>, k: nat) returns (more: seq<Step>)
    requires plan.storage && k < |plan.items|
    requires Run(plan, steps).Some? && FirstStored(plan, Run(plan, steps).value, k)
    ensures Run(plan, more).Some? && FirstStored(plan, Run(plan, more).value, k + 1)
  {
    hide Run;
    Then(plan, steps, Issue(k));
    Then(plan, steps + [Issue(k)], Land(k));
    Then(plan, steps + [Issue(k)] + [Land(k)], Ack(k));
    more := steps + [Issue(k)] + [Land(k)] + [Ack(k)];
  }

  lemma {:induction false} UploadFirst(plan: Plan, k: nat) returns (steps: seq<Step>)
    requires plan.storage && k <= |plan.items|
    ensures Run(plan, steps).Some? && FirstStored(plan, Run(plan, steps).value, k)
  {
    if k == 0 {
      steps := [];
    } else {
      hide Run, FirstStored;
      steps := UploadFirst(plan, k - 1);
      steps := UploadOne(plan, steps, k - 1);
    }
  }

  /** The storage side is through, the StoreCts side as it was or through too. */
  predicate StorageThrough(s: State, cts: Cts) {
    s.external.ExtOk? && s.cts == cts && s.answer.Pending? && OnlyMine(s.log)
  }

  lemma StorageGoesThrough(plan: Plan) returns (steps: seq<Step>)
    ensures Run(plan, steps).Some? && StorageThrough(Run(plan, steps).value, Init(plan).cts)
  {
    if plan.storage {
      steps := UploadFirst(plan, |plan.items|);
      hide Run;
      Then(plan, steps, JoinOk);
      steps := steps + [JoinOk];
    } else {
      steps := [];
    }
  }

  lemma StoreCtsGoesThrough(plan: Plan, before: seq<Step>) returns (steps: seq<Step>)
    requires Run(plan, before).Some? && StorageThrough(Run(plan, before).value, Init(plan).cts)
    ensures Run(plan, steps).Some? && StorageThrough(Run(plan, steps).value, CtsOk)
  {
    hide Run;
    steps := before;
    if plan.storeCts {
      Then(plan, before, CtsIssue);
      Then(plan, before + [CtsIssue], CtsLand);
      Then(plan, before + [CtsIssue] + [CtsLand], CtsAck);
      steps := before + [CtsIssue] + [CtsLand] + [CtsAck];
    }
  }

  /** Every request can succeed, whatever it stores and hands over, without anybody
      else writing: the statements about success are not empty. */
  lemma SuccessIsReachable(plan: Plan) returns (steps: seq<Step>)
    ensures Run(plan, steps).Some? && Run(plan, steps).value.answer.Released?
    ensures OnlyMine(Run(plan, steps).value.log)
  {
    steps := StorageGoesThrough(plan);
    steps := StoreCtsGoesThrough(plan, steps);
    hide Run;
    Then(plan, steps, Respond);
    steps := steps + [Respond];
  }
}
