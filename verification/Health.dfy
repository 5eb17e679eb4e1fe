/** The health loop: probe, log transitions, publish gauges. */
module Health {
  import opened Common

  datatype Dependency = StoreCts | ObjectStorage

  datatype Probe = Up | Down(reason: Bytes)

  datatype Line = Line(dependency: Dependency, probe: Probe)

  datatype Gauge = DependencyUp(dependency: Dependency) | Healthy

  /** One round's results; storage is probed only where one is configured. */
  datatype Round = Round(storeCts: Probe, storage: Option<Probe>)

  function AsGauge(up: bool): real {
    if up then 1.0 else 0.0
  }

  // ----- logging transitions ------------------------------------------------

  /** The probes of a history that differ in verdict from the one before. */
  function Changes(history: seq<Probe>): (lines: seq<Probe>) {
    if |history| <= 1 then history
    else
      var last, previous := history[|history| - 1], history[|history| - 2];
      var before := Changes(history[..|history| - 1]);
      if last.Up? == previous.Up? then before else before + [last]
  }

  /** The lines about one dependency, in order. */
  function About(log: seq<Line>, dependency: Dependency): seq<Probe> {
    if log == [] then []
    else
      var before := About(log[..|log| - 1], dependency);
      var last := log[|log| - 1];
      if last.dependency == dependency then before + [last.probe] else before
  }

  lemma AboutSnoc(log: seq<Line>, line: Line, dependency: Dependency)
    ensures About(log + [line], dependency)
         == About(log, dependency) + if line.dependency == dependency then [line.probe] else []
  {
    assert (log + [line])[..|log|] == log;
  }

  /** The last change states the latest verdict, and changes alternate. */
  lemma {:induction false} ChangesAlternate(history: seq<Probe>)
    ensures history != [] ==> Changes(history) != [] && Changes(history)[|Changes(history)| - 1].Up?
                                                        == history[|history| - 1].Up?
    ensures forall k :: 0 < k < |Changes(history)| ==> Changes(history)[k].Up? != Changes(history)[k - 1].Up?
  {
    if |history| > 1 {
      ChangesAlternate(history[..|history| - 1]);
    }
  }

  /** Nothing is unsaid: the changes up to a round are a prefix of all changes. */
  lemma {:induction false} ChangesGrow(history: seq<Probe>, n: nat)
    requires n <= |history|
    ensures Changes(history[..n]) <= Changes(history)
  {
    if n < |history| {
      ChangesGrow(history[..|history| - 1], n);
      assert history[..|history| - 1][..n] == history[..n];
    } else {
      assert history[..n] == history;
    }
  }

  /** So the log decodes to the whole history of verdicts: that of round `t` is
      stated by the last of the lines written by then. */
  lemma LogDecodes(history: seq<Probe>, t: nat)
    requires t < |history|
    ensures var written := |Changes(history[..t + 1])|;
            0 < written <= |Changes(history)| && Changes(history)[written - 1].Up? == history[t].Up?
  {
    ChangesAlternate(history[..t + 1]);
    ChangesGrow(history, t + 1);
  }

  // ----- the loop -----------------------------------------------------------

  function Latest(history: seq<Probe>): Option<bool> {
    if history == [] then None else Some(history[|history| - 1].Up?)
  }

  predicate IsUp(history: seq<Probe>) {
    history != [] && history[|history| - 1].Up?
  }

  /** Appending a line only on a change of verdict extends the changes by one probe,
      and leaves what is logged about the other dependency alone. */
  lemma LoggedChange(log: seq<Line>, dependency: Dependency, history: seq<Probe>, result: Probe)
    requires About(log, dependency) == Changes(history)
    ensures var log' := if Latest(history) == Some(result.Up?) then log else log + [Line(dependency, result)];
            && About(log', dependency) == Changes(history + [result])
            && forall other :: other != dependency ==> About(log', other) == About(log, other)
  {
    assert (history + [result])[..|history|] == history;
    forall d: Dependency {
      AboutSnoc(log, Line(dependency, result), d);
    }
  }

  class Monitor {
    const configured: bool
    var log: seq<Line>
    var gauges: map<Gauge, real>
    var prevStoreCts: Option<bool>
    var prevStorage: Option<bool>
    ghost var storeCtsHistory: seq<Probe>
    ghost var storageHistory: seq<Probe>

    /** The log is the changes of each dependency's history, and the gauges are the
        verdict of the latest probes, or zero before the first round. */
    ghost predicate Valid()
      reads this
    {
      && prevStoreCts == Latest(storeCtsHistory)
      && prevStorage == Latest(storageHistory)
      && |storageHistory| == (if configured then |storeCtsHistory| else 0)
      && About(log, StoreCts) == Changes(storeCtsHistory)
      && About(log, ObjectStorage) == Changes(storageHistory)
      && gauges.Keys == {Healthy, DependencyUp(StoreCts)} + (if configured then {DependencyUp(ObjectStorage)} else {})
      && gauges[DependencyUp(StoreCts)] == AsGauge(IsUp(storeCtsHistory))
      && (configured ==> gauges[DependencyUp(ObjectStorage)] == AsGauge(IsUp(storageHistory)))
      && gauges[Healthy] == AsGauge(IsUp(storeCtsHistory) && (configured ==> IsUp(storageHistory)))
    }

    /** Fail closed: everything is published as down before anything is probed. */
    constructor (configured: bool)
      ensures Valid() && this.configured == configured
      ensures log == [] && storeCtsHistory == []
      ensures forall g :: g in gauges ==> gauges[g] == 0.0
    {
      this.configured := configured;
      log, gauges := [], map[];
      prevStoreCts, prevStorage := None, None;
      storeCtsHistory, storageHistory := [], [];
      new;
      Publish(false, if configured then Some(false) else None);
    }

    method LogTransition(dependency: Dependency, previous: Option<bool>, result: Probe)
      modifies this`log
      ensures log == if previous == Some(result.Up?) then old(log) else old(log) + [Line(dependency, result)]
    {
      if previous == Some(result.Up?) {
        return;
      }
      log := log + [Line(dependency, result)];
    }

    method Publish(storeCtsUp: bool, storageUp: Option<bool>)
      modifies this`gauges
      ensures gauges.Keys == old(gauges).Keys + {Healthy, DependencyUp(StoreCts)}
                             + (if storageUp.Some? then {DependencyUp(ObjectStorage)} else {})
      ensures gauges[DependencyUp(StoreCts)] == (if storeCtsUp then 1.0 else 0.0)
      ensures storageUp.Some? ==> gauges[DependencyUp(ObjectStorage)] == (if storageUp.value then 1.0 else 0.0)
      ensures gauges[Healthy] == (if storeCtsUp && storageUp != Some(false) then 1.0 else 0.0)
    {
      gauges := gauges[DependencyUp(StoreCts) := AsGauge(storeCtsUp)];
      if storageUp.Some? {
        gauges := gauges[DependencyUp(ObjectStorage) := AsGauge(storageUp.value)];
      }
      gauges := gauges[Healthy := AsGauge(storeCtsUp && (if storageUp.Some? then storageUp.value else true))];
    }

    /** One tick. */
    method Tick(round: Round)
      requires Valid() && round.storage.Some? == configured
      modifies this
      ensures Valid()
      ensures storeCtsHistory == old(storeCtsHistory) + [round.storeCts]
      ensures storageHistory == old(storageHistory) + if configured then [round.storage.value] else []
      ensures old(log) <= log
    {
      hide Changes, About;
      LogTransition(StoreCts, prevStoreCts, round.storeCts);
      LoggedChange(old(log), StoreCts, storeCtsHistory, round.storeCts);
      prevStoreCts := Some(round.storeCts.Up?);
      storeCtsHistory := storeCtsHistory + [round.storeCts];
      if round.storage.Some? {
        ghost var before := log;
        LogTransition(ObjectStorage, prevStorage, round.storage.value);
        LoggedChange(before, ObjectStorage, storageHistory, round.storage.value);
        prevStorage := Some(round.storage.value.Up?);
        storageHistory := storageHistory + [round.storage.value];
      }
      Publish(round.storeCts.Up?, if round.storage.Some? then Some(round.storage.value.Up?) else None);
    }
  }

  function StoreCtsOf(rounds: seq<Round>): (h: seq<Probe>)
    ensures |h| == |rounds|
  {
    seq(|rounds|, i requires 0 <= i < |rounds| => rounds[i].storeCts)
  }

  function StorageOf(rounds: seq<Round>): (h: seq<Probe>)
    requires forall i :: 0 <= i < |rounds| ==> rounds[i].storage.Some?
    ensures |h| == |rounds|
  {
    seq(|rounds|, i requires 0 <= i < |rounds| => rounds[i].storage.value)
  }

  lemma HistoriesGrow(rounds: seq<Round>, i: nat)
    requires i < |rounds|
    ensures StoreCtsOf(rounds[..i + 1]) == StoreCtsOf(rounds[..i]) + [rounds[i].storeCts]
    ensures (forall k :: 0 <= k < |rounds| ==> rounds[k].storage.Some?) ==>
              StorageOf(rounds[..i + 1]) == StorageOf(rounds[..i]) + [rounds[i].storage.value]
  {
  }

  /** The latest verdicts are those of the last round. */
  lemma LastRound(rounds: seq<Round>)
    requires rounds != []
    ensures IsUp(StoreCtsOf(rounds)) == rounds[|rounds| - 1].storeCts.Up?
    ensures (forall k :: 0 <= k < |rounds| ==> rounds[k].storage.Some?) ==>
              IsUp(StorageOf(rounds)) == rounds[|rounds| - 1].storage.value.Up?
  {
  }

  /** Every run, from the start of the process through `rounds`: the log about each
      dependency is exactly the changes of its probes, and the gauges are the
      verdict of the last round (zero if there was none). */
  method Spawn(configured: bool, rounds: seq<Round>) returns (log: seq<Line>, gauges: map<Gauge, real>)
    requires forall i :: 0 <= i < |rounds| ==> rounds[i].storage.Some? == configured
    ensures About(log, StoreCts) == Changes(StoreCtsOf(rounds))
    ensures About(log, ObjectStorage) == if configured then Changes(StorageOf(rounds)) else []
    ensures gauges.Keys == {Healthy, DependencyUp(StoreCts)}
                           + (if configured then {DependencyUp(ObjectStorage)} else {})
    ensures rounds == [] ==> log == [] && forall g :: g in gauges ==> gauges[g] == 0.0
    ensures rounds != [] ==>
              var last := rounds[|rounds| - 1];
              && gauges[DependencyUp(StoreCts)] == (if last.storeCts.Up? then 1.0 else 0.0)
              && (configured ==> gauges[DependencyUp(ObjectStorage)] == (if last.storage.value.Up? then 1.0 else 0.0))
              && gauges[Healthy] == (if last.storeCts.Up? && (configured ==> last.storage.value.Up?) then 1.0 else 0.0)
  {
    var monitor := new Monitor(configured);
    assert Changes([]) == [] && StoreCtsOf(rounds[..0]) == [] && (configured ==> StorageOf(rounds[..0]) == []);
    assert IsUp([]) == false;
    hide Changes, About, StoreCtsOf, StorageOf, IsUp;
    for i := 0 to |rounds|
      invariant monitor.Valid() && monitor.configured == configured && fresh(monitor)
      invariant monitor.storeCtsHistory == StoreCtsOf(rounds[..i])
      invariant monitor.storageHistory == if configured then StorageOf(rounds[..i]) else []
      invariant i == 0 ==> monitor.log == [] && forall g :: g in monitor.gauges ==> monitor.gauges[g] == 0.0
    {
      monitor.Tick(rounds[i]);
      HistoriesGrow(rounds, i);
    }
    if rounds != [] {
      LastRound(rounds);
    }
    assert rounds[..|rounds|] == rounds;
    log, gauges := monitor.log, monitor.gauges;
  }
}
