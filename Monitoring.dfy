/**
  The monitor: a flag that says whether monitoring is on, the start and stop
  operations that set and clear it, and the polling loop that turns each tick
  into one observation. The operating system is replaced by the ticks handed
  to the loop: what the filtered process listing produced, the load fraction
  the platform reports, and whether a stop was requested during the tick.
 */
module Monitoring {
  import opened Wrappers
  import opened Power
  import opened MatchDetector

  /** The outcome of running the filtered process listing. */
  datatype Query =
    | Listed(lines: seq<string>)
    | Failed(message: string)

  /**
    One pass of the loop. stopRequested says that the stop operation ran
    while this pass was under way: the pass still reports, then the loop ends.
   */
  datatype Tick = Tick(query: Query, processCpuLoad: real, stopRequested: bool)

  /** What a pass reports. */
  datatype Observation =
    | Found(processInfo: string, cpuUsage: real, estimatedPower: real)
    | NotFound(processName: string)
    | Error(message: string)

  /**
    The observation of one tick: a failed listing is reported as an error; a
    listing that shows the process yields its information, the CPU sample and
    the power estimate for that sample; any other listing yields not-found.
   */
  function TickObservation(processName: string, t: Tick): (obs: Observation)
    ensures obs.Error? <==> t.query.Failed?
    ensures obs.Found? <==> t.query.Listed? && MatchDetail(t.query.lines) != []
    ensures obs.Found? ==>
      && obs.cpuUsage == CpuUsagePercent(t.processCpuLoad)
      && obs.estimatedPower == EstimatePowerConsumption(obs.cpuUsage)
    ensures obs.NotFound? ==> obs.processName == processName
    ensures obs.Found? ==> obs.processInfo == MatchDetail(t.query.lines)
    ensures obs.Error? ==> obs.message == t.query.message
  {
    match t.query
    case Failed(message) => Error(message)
    case Listed(lines) =>
      var detail := MatchDetail(lines);
      if detail != [] then
        var cpuUsage := CpuUsagePercent(t.processCpuLoad);
        Found(detail, cpuUsage, EstimatePowerConsumption(cpuUsage))
      else NotFound(processName)
  }

  /** The observations of a session given its ticks: one per tick, up to and including the first tick with a stop. */
  function Observations(processName: string, ticks: seq<Tick>): seq<Observation> {
    if ticks == [] then []
    else
      [TickObservation(processName, ticks[0])] +
      (if ticks[0].stopRequested then [] else Observations(processName, ticks[1..]))
  }

  /** Before any stop, one more tick adds its observation at the end. */
  lemma {:induction false} ObservationsSnoc(processName: string, ticks: seq<Tick>, t: Tick)
    requires forall k :: 0 <= k < |ticks| ==> !ticks[k].stopRequested
    ensures Observations(processName, ticks + [t]) == Observations(processName, ticks) + [TickObservation(processName, t)]
  {
    if ticks != [] {
      assert (ticks + [t])[1..] == ticks[1..] + [t];
      ObservationsSnoc(processName, ticks[1..], t);
    }
  }

  /** The ticks after the first stop add nothing. */
  lemma {:induction false} ObservationsStopAt(processName: string, ticks: seq<Tick>, i: nat)
    requires i < |ticks| && ticks[i].stopRequested
    requires forall k :: 0 <= k < i ==> !ticks[k].stopRequested
    ensures Observations(processName, ticks) == Observations(processName, ticks[..i + 1])
  {
    if i > 0 {
      assert ticks[..i + 1][1..] == ticks[1..][..i];
      ObservationsStopAt(processName, ticks[1..], i - 1);
    }
  }

  /**
    The k-th observation is that of the k-th tick; no tick before the last
    observed one requested a stop; observation ends early only at a tick that
    requested a stop; and any tick is observed.
   */
  lemma {:induction false} ObservationsSpec(processName: string, ticks: seq<Tick>)
    ensures |Observations(processName, ticks)| <= |ticks|
    ensures forall k :: 0 <= k < |Observations(processName, ticks)| ==>
      Observations(processName, ticks)[k] == TickObservation(processName, ticks[k])
    ensures forall k :: 0 <= k < |Observations(processName, ticks)| - 1 ==> !ticks[k].stopRequested
    ensures |Observations(processName, ticks)| < |ticks| ==>
      ticks[|Observations(processName, ticks)| - 1].stopRequested
    ensures ticks != [] ==> Observations(processName, ticks) != []
  {
    if ticks != [] && !ticks[0].stopRequested {
      var rest := Observations(processName, ticks[1..]);
      ObservationsSpec(processName, ticks[1..]);
      assert forall k :: 1 <= k < |rest| + 1 ==> ticks[k] == ticks[1..][k - 1];
    }
  }

  /** A process that never shows up: one not-found observation per tick. */
  lemma {:induction false} NeverFound(processName: string, ticks: seq<Tick>)
    requires forall k :: 0 <= k < |ticks| ==>
      ticks[k].query.Listed? && MatchDetail(ticks[k].query.lines) == [] && !ticks[k].stopRequested
    ensures Observations(processName, ticks) == seq(|ticks|, _ => NotFound(processName))
  {
    if ticks != [] {
      NeverFound(processName, ticks[1..]);
    }
  }

  /** A process always found at a steady 80 % load: every observation estimates 54 W. */
  lemma {:induction false} SteadyLoad(processName: string, ticks: seq<Tick>)
    requires forall k :: 0 <= k < |ticks| ==>
      ticks[k].query.Listed? && MatchDetail(ticks[k].query.lines) != [] && ticks[k].processCpuLoad == 0.8
    ensures forall obs :: obs in Observations(processName, ticks) ==>
      obs.Found? && obs.cpuUsage == 80.0 && obs.estimatedPower == 54.0
  {
    if ticks != [] && !ticks[0].stopRequested {
      SteadyLoad(processName, ticks[1..]);
    }
  }

  class Monitor {
    /** Whether monitoring is on. */
    var isMonitoring: bool
    /** The process name the monitor thread was last started for; None before the first start. */
    var monitorThread: Option<string>

    constructor ()
      ensures !isMonitoring && monitorThread == None
    {
      isMonitoring := false;
      monitorThread := None;
    }

    /**
      startMonitoring: refused while monitoring is on, and when nothing is
      selected; otherwise turns monitoring on and starts a thread for the
      selected name.
     */
    method Start(selection: Option<string>) returns (started: bool)
      modifies this
      ensures started <==> !old(isMonitoring) && selection.Some?
      ensures isMonitoring == (old(isMonitoring) || started)
      ensures monitorThread == if started then Some(selection.value) else old(monitorThread)
    {
      if isMonitoring {
        return false;
      }
      if selection.None? {
        return false;
      }
      var processName := selection.value;
      isMonitoring := true;
      monitorThread := Some(processName);
      return true;
    }

    /**
      stopMonitoring: turns monitoring off whatever the state, and interrupts
      the monitor thread when there is one.
     */
    method Stop() returns (interrupted: bool)
      modifies this
      ensures !isMonitoring
      ensures monitorThread == old(monitorThread)
      ensures interrupted <==> monitorThread.Some?
    {
      isMonitoring := false;
      interrupted := monitorThread.Some?;
    }

    /**
      monitorProcess: while monitoring is on, run the listing, report what it
      shows, and sleep. A stop during a pass that reached the sleep interrupts
      the sleep and the loop breaks; a stop during a pass that failed is seen by
      the loop condition. A failed listing is reported and the loop goes on.
     */
    method Run(processName: string, ticks: seq<Tick>) returns (observations: seq<Observation>)
      requires monitorThread == Some(processName)
      modifies this
      ensures observations == if old(isMonitoring) then Observations(processName, ticks) else []
      ensures isMonitoring <==> old(isMonitoring) && forall k :: 0 <= k < |ticks| ==> !ticks[k].stopRequested
      ensures monitorThread == old(monitorThread)
    {
      observations := [];
      var i := 0;
      while isMonitoring && i < |ticks|
        invariant 0 <= i <= |ticks|
        invariant monitorThread == old(monitorThread)
        invariant isMonitoring ==> old(isMonitoring)
        invariant !old(isMonitoring) ==> i == 0
        invariant observations == Observations(processName, ticks[..i])
        invariant forall k :: 0 <= k < i - 1 ==> !ticks[k].stopRequested
        invariant isMonitoring ==> forall k :: 0 <= k < i ==> !ticks[k].stopRequested
        invariant old(isMonitoring) && !isMonitoring ==> 0 < i && ticks[i - 1].stopRequested
      {
        var t := ticks[i];
        var obs := Observe(processName, t);
        assert ticks[..i + 1] == ticks[..i] + [t];
        ObservationsSnoc(processName, ticks[..i], t);
        observations := observations + [obs];
        i := i + 1;
        if t.stopRequested {
          var _ := Stop();
          if t.query.Listed? {
            break;
          }
        }
      }
      if old(isMonitoring) {
        if isMonitoring {
          assert ticks[..i] == ticks;
        } else {
          ObservationsStopAt(processName, ticks, i - 1);
        }
      }
    }

    /** One pass of the loop body, up to the sleep. */
    method Observe(processName: string, t: Tick) returns (obs: Observation)
      ensures obs == TickObservation(processName, t)
    {
      match t.query {
        case Failed(message) =>
          obs := Error(message);
        case Listed(lines) =>
          var found, detail := DetectMatch(lines);
          if found {
            var cpuUsage := CpuUsagePercent(t.processCpuLoad);
            var estimatedPower := EstimatePowerConsumption(cpuUsage);
            obs := Found(detail, cpuUsage, estimatedPower);
          } else {
            obs := NotFound(processName);
          }
      }
    }
  }

  /**
    A second start without a stop is refused and leaves the first session in
    place; stop may be repeated; a start with nothing selected is refused.
   */
  method StartStopScenario() returns (first: bool, second: bool, kept: bool, stopped: bool, unselected: bool)
    ensures first && !second && kept && stopped && !unselected
  {
    var monitor := new Monitor();
    first := monitor.Start(Some("notepad.exe"));
    second := monitor.Start(Some("chrome.exe"));
    kept := monitor.isMonitoring && monitor.monitorThread == Some("notepad.exe");
    var _ := monitor.Stop();
    var _ := monitor.Stop();
    stopped := !monitor.isMonitoring;
    unselected := monitor.Start(None);
  }
}
