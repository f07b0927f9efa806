/**
 * Offline detection over the shared instance row: every node probes with a
 * snapshot it read some time ago and writes back with that snapshot as the condition of the update.
 */
module Failover {
  const UNSET_DELAY: nat := 0xFFFF_FFFF_FFFF_FFFF

  datatype InstanceState = Undefined | Running | Offline | Other(code: nat)

  /** The columns of an instance row; `place` stands for node, address, process and path. */
  datatype Row = Row(name: string, place: string, state: InstanceState, config: string,
                     heartbeat: nat, delay: nat, dumpPoint: nat)

  /** The WHERE clause: unset columns and the configuration are not compared. */
  predicate Matches(row: Row, cond: Row) {
    && cond.name == row.name && cond.place == row.place
    && (cond.state != Undefined ==> cond.state == row.state)
    && (cond.heartbeat != 0 ==> cond.heartbeat == row.heartbeat)
    && (cond.delay != UNSET_DELAY ==> cond.delay == row.delay)
    && (cond.dumpPoint != 0 ==> cond.dumpPoint == row.dumpPoint)
  }

  /** The SET clause: unset columns keep their value, the dump point is always written. */
  function Assign(row: Row, upd: Row): Row {
    Row(upd.name, upd.place, if upd.state == Undefined then row.state else upd.state, upd.config,
        if upd.heartbeat == 0 then row.heartbeat else upd.heartbeat,
        if upd.delay == UNSET_DELAY then row.delay else upd.delay, upd.dumpPoint)
  }

  function Update(row: Row, upd: Row, cond: Row): Row {
    if Matches(row, cond) then Assign(row, upd) else row
  }

  /** What a probe learns: the instance's report, or silence with the local liveness test. */
  datatype Probe = Report(delay: nat, dumpPoint: nat) | Silent(localAlive: bool)

  /** The age of the heartbeat is an unsigned 64-bit difference. */
  function Age(now: nat, heartbeat: nat): nat {
    (now - heartbeat) % 0x1_0000_0000_0000_0000
  }

  predicate Expired(snap: Row, now: nat, expiration: nat) {
    Age(now, snap.heartbeat) > expiration && snap.state == Running
  }

  /** The row a probe would write, or nothing. */
  datatype Write = Nothing | Write(row: Row, callback: bool)

  function Decision(snap: Row, probe: Probe, now: nat, expiration: nat): Write {
    match probe
    case Report(delay, dump) => Write(snap.(heartbeat := now, delay := delay, dumpPoint := dump, state := Running), false)
    case Silent(alive) =>
      if !Expired(snap, now, expiration) then Nothing
      else if alive then Write(snap.(heartbeat := now), false)
      else Write(snap.(state := Offline), true)
  }

  // ---------------------------------------------------------------- the shared row as an object

  class MetaTable {
    var row: Row
    var callbacks: seq<nat>

    constructor (row: Row)
      ensures this.row == row && callbacks == []
    {
      this.row := row;
      callbacks := [];
    }

    /** `BinlogInstanceDAO::update_instance`: fails when no row was affected. */
    method UpdateInstance(upd: Row, cond: Row) returns (ok: bool)
      modifies this`row
      ensures ok <==> Matches(old(row), cond)
      ensures row == Update(old(row), upd, cond)
    {
      if !Matches(row, cond) {
        return false;
      }
      row := Assign(row, upd);
      return true;
    }

    /** `binlog_instance_exploration` by node `prober`, from the snapshot it was given. */
    method Explore(prober: nat, snap: Row, probe: Probe, now: nat, expiration: nat)
      modifies this
      ensures (row, callbacks) == Explored(old(row), old(callbacks), prober, snap, probe, now, expiration)
    {
      var instance := snap;
      match probe
      case Report(delay, dump) =>
        instance := instance.(heartbeat := now);
        instance := instance.(delay := delay);
        instance := instance.(dumpPoint := dump);
        instance := instance.(state := Running);
        var _ := UpdateInstance(instance, snap);
      case Silent(alive) =>
        if Age(now, snap.heartbeat) > expiration && snap.state == Running {
          if alive {
            instance := instance.(heartbeat := now);
            var _ := UpdateInstance(instance, snap);
          } else {
            instance := instance.(state := Offline);
            var ok := UpdateInstance(instance, snap);
            if !ok {
              return;
            }
            callbacks := callbacks + [prober];
          }
        }
    }
  }

  function Explored(row: Row, callbacks: seq<nat>, prober: nat, snap: Row, probe: Probe, now: nat, expiration: nat)
    : (Row, seq<nat>)
  {
    match Decision(snap, probe, now, expiration)
    case Nothing => (row, callbacks)
    case Write(upd, cb) =>
      (Update(row, upd, snap), if cb && Matches(row, snap) then callbacks + [prober] else callbacks)
  }

  // ---------------------------------------------------------------- interleavings

  /**
   * A probe acts on any value of the past in which the row was RUNNING, as both
   * callers select it, and reads the clock of its own node; other writers may do anything but take the instance offline.
   */
  datatype Action =
    | Probing(prober: nat, snapAt: nat, probe: Probe, now: nat)
    | Elsewhere(row: Row)

  /** All values the row has had, the last one current, and who was called back. */
  datatype World = World(history: seq<Row>, callbacks: seq<nat>)

  predicate WellFormed(w: World) { w.history != [] }

  function Current(w: World): Row
    requires WellFormed(w)
  {
    w.history[|w.history| - 1]
  }

  predicate GoesDown(before: Row, after: Row) {
    before.state == Running && after.state == Offline
  }

  predicate Enabled(w: World, a: Action) {
    && WellFormed(w)
    && match a
       case Probing(_, at, _, _) => at < |w.history| && w.history[at].state == Running
       case Elsewhere(row) => !GoesDown(Current(w), row)
  }

  function Step(w: World, a: Action, expiration: nat): (w': World)
    requires Enabled(w, a)
    ensures WellFormed(w') && |w'.history| == |w.history| + 1
  {
    match a
    case Probing(p, at, probe, now) =>
      var r := Explored(Current(w), w.callbacks, p, w.history[at], probe, now, expiration);
      World(w.history + [r.0], r.1)
    case Elsewhere(row) => w.(history := w.history + [row])
  }

  predicate EnabledRun(w: World, acts: seq<Action>, expiration: nat)
    decreases |acts|
  {
    acts == [] || (Enabled(w, acts[0]) && EnabledRun(Step(w, acts[0], expiration), acts[1..], expiration))
  }

  function Run(w: World, acts: seq<Action>, expiration: nat): World
    requires EnabledRun(w, acts, expiration)
    decreases |acts|
  {
    if acts == [] then w else Run(Step(w, acts[0], expiration), acts[1..], expiration)
  }

  /** How often the row went from RUNNING to OFFLINE from version `from` on. */
  function Downs(history: seq<Row>, from: nat): nat
    decreases |history| - from
  {
    if from + 1 >= |history| then 0
    else (if GoesDown(history[from], history[from + 1]) then 1 else 0) + Downs(history, from + 1)
  }

  /** One step calls back exactly the prober that took the row from RUNNING to OFFLINE. */
  lemma StepCallsOnce(w: World, a: Action, expiration: nat)
    requires Enabled(w, a)
    ensures var w' := Step(w, a, expiration);
            w'.callbacks ==
            if GoesDown(Current(w), Current(w')) then w.callbacks + (if a.Probing? then [a.prober] else [])
            else w.callbacks
    ensures GoesDown(Current(w), Current(Step(w, a, expiration))) ==> a.Probing?
  {}

  lemma {:induction false} DownsAppend(history: seq<Row>, row: Row, from: nat)
    requires from < |history|
    ensures Downs(history + [row], from)
         == Downs(history, from) + (if GoesDown(history[|history| - 1], row) then 1 else 0)
    decreases |history| - from
  {
    if from + 1 < |history| {
      DownsAppend(history, row, from + 1);
    } else {
      assert Downs(history + [row], from + 1) == 0;
    }
  }

  /** The probers whose steps took the row from RUNNING to OFFLINE, in order. */
  function Takers(w: World, acts: seq<Action>, expiration: nat): seq<nat>
    requires EnabledRun(w, acts, expiration)
    decreases |acts|
  {
    if acts == [] then []
    else
      var w' := Step(w, acts[0], expiration);
      (if GoesDown(Current(w), Current(w')) && acts[0].Probing? then [acts[0].prober] else [])
      + Takers(w', acts[1..], expiration)
  }

  /**
   * Under every interleaving of any number of probers with stale snapshots and clocks
   * of their own, those called back are exactly the probers that took the row offline, once for each such change.
   */
  lemma {:induction false} FailoverOncePerOutage(w: World, acts: seq<Action>, expiration: nat)
    requires EnabledRun(w, acts, expiration) && WellFormed(w)
    ensures var v := Run(w, acts, expiration);
            && WellFormed(v)
            && v.callbacks == w.callbacks + Takers(w, acts, expiration)
            && Downs(v.history, 0) == Downs(w.history, 0) + |Takers(w, acts, expiration)|
    decreases |acts|
  {
    hide Explored, GoesDown, Downs;
    if acts == [] {
      assert w.callbacks + [] == w.callbacks;
    } else {
      var a := acts[0];
      var w' := Step(w, a, expiration);
      StepCallsOnce(w, a, expiration);
      assert w'.history == w.history + [Current(w')];
      DownsAppend(w.history, Current(w'), 0);
      FailoverOncePerOutage(w', acts[1..], expiration);
      JoinedTakers(w.callbacks, if a.Probing? then a.prober else 0, Takers(w', acts[1..], expiration));
    }
  }

  lemma JoinedTakers(called: seq<nat>, p: nat, rest: seq<nat>)
    ensures called + [p] + rest == called + ([p] + rest) && called + ([] + rest) == called + rest
    ensures |[p] + rest| == 1 + |rest| && |[] + rest| == |rest|
  {}

  // ---------------------------------------------------------------- what one probe does

  /** All columns of the snapshot are set, so that the update compares all of them. */
  predicate Complete(snap: Row) {
    snap.state != Undefined && snap.heartbeat != 0 && snap.delay != UNSET_DELAY && snap.dumpPoint != 0
  }

  /** A complete snapshot matches exactly the row it was read from, whatever the configuration; an unset column is free. */
  lemma MatchesIff(row: Row, snap: Row)
    ensures Complete(snap) ==> (Matches(row, snap) <==> row == snap.(config := row.config))
    ensures Matches(row, snap.(state := Undefined)) <==> Matches(row.(state := snap.state), snap)
    ensures Matches(row, snap.(heartbeat := 0)) <==> Matches(row.(heartbeat := snap.heartbeat), snap)
    ensures Matches(row, snap.(delay := UNSET_DELAY)) <==> Matches(row.(delay := snap.delay), snap)
    ensures Matches(row, snap.(dumpPoint := 0)) <==> Matches(row.(dumpPoint := snap.dumpPoint), snap)
  {}

  /** A report of a matching row writes clock, delay and dump point and leaves everything else as the snapshot has it. */
  lemma ReportEffect(row: Row, snap: Row, delay: nat, dump: nat, now: nat, expiration: nat, called: seq<nat>, p: nat)
    requires snap.state == Running && now != 0 && delay != UNSET_DELAY
    ensures Explored(row, called, p, snap, Report(delay, dump), now, expiration)
         == (if Matches(row, snap) then Row(row.name, row.place, Running, snap.config, now, delay, dump) else row, called)
  {}

  /** Without a report a row whose process lives locally gets the clock as its heartbeat, if the old one has expired. */
  lemma AliveEffect(row: Row, snap: Row, now: nat, expiration: nat, called: seq<nat>, p: nat)
    requires Complete(snap) && now != 0
    ensures Explored(row, called, p, snap, Silent(true), now, expiration)
         == (if Matches(row, snap) && snap.state == Running && (now - snap.heartbeat) % 0x1_0000_0000_0000_0000 > expiration
             then snap.(heartbeat := now) else row, called)
  {}

  /**
   * A probe takes a row from RUNNING to OFFLINE if and only if there was no
   * report, the local liveness test failed, the snapshot is RUNNING and matches, and the 64-bit difference of clock and
   * snapshot heartbeat exceeds the expiration.
   */
  lemma GoesDownIff(w: World, a: Action, expiration: nat)
    requires Enabled(w, a) && a.Probing?
    ensures var snap := w.history[a.snapAt];
            GoesDown(Current(w), Current(Step(w, a, expiration))) <==>
              && a.probe == Silent(false) && snap.state == Running && Matches(Current(w), snap)
              && (a.now - snap.heartbeat) % 0x1_0000_0000_0000_0000 > expiration
    ensures GoesDown(Current(w), Current(Step(w, a, expiration))) ==>
              var snap := w.history[a.snapAt];
              Current(Step(w, a, expiration)) == Current(w).(state := Offline, config := snap.config, dumpPoint := snap.dumpPoint)
  {}

  // ---------------------------------------------------------------- what probes alone can do

  predicate OnlyProbes(acts: seq<Action>) {
    forall i :: 0 <= i < |acts| ==> acts[i].Probing?
  }

  /**
   * A report changes the state of a row exactly when it matches a row that is not
   * RUNNING; no snapshot of a RUNNING row does.
   */
  lemma ReportChangesStateIff(row: Row, snap: Row, delay: nat, dump: nat, now: nat, expiration: nat, p: nat)
    ensures Explored(row, [], p, snap, Report(delay, dump), now, expiration).0.state != row.state
       <==> Matches(row, snap) && row.state != Running
    ensures snap.state == Running ==> Explored(row, [], p, snap, Report(delay, dump), now, expiration).0.state == row.state
  {}

  /** A row that is not RUNNING stays as it is, whatever probes run, and nobody is called back. */
  lemma {:induction false} DownStaysDown(w: World, acts: seq<Action>, expiration: nat)
    requires WellFormed(w) && EnabledRun(w, acts, expiration) && OnlyProbes(acts) && Current(w).state != Running
    ensures var v := Run(w, acts, expiration);
            WellFormed(v) && Current(v) == Current(w) && v.callbacks == w.callbacks
    decreases |acts|
  {
    if acts != [] {
      DownStaysDown(Step(w, acts[0], expiration), acts[1..], expiration);
    }
  }

  /**
   * Probes alone call back at most once: exactly once if they leave a RUNNING row
   * OFFLINE, else never. A second failover needs another writer in between.
   */
  lemma {:induction false} OneFailoverByProbes(w: World, acts: seq<Action>, expiration: nat)
    requires WellFormed(w) && EnabledRun(w, acts, expiration) && OnlyProbes(acts)
    ensures var v := Run(w, acts, expiration);
            && WellFormed(v)
            && |Takers(w, acts, expiration)| == (if GoesDown(Current(w), Current(v)) then 1 else 0)
            && |v.callbacks| == |w.callbacks| + (if GoesDown(Current(w), Current(v)) then 1 else 0)
    decreases |acts|
  {
    FailoverOncePerOutage(w, acts, expiration);
    if acts != [] {
      hide Explored;
      var w' := Step(w, acts[0], expiration);
      RunningOrDown(w, acts[0], expiration);
      FailoverOncePerOutage(w', acts[1..], expiration);
      if Current(w').state == Running {
        OneFailoverByProbes(w', acts[1..], expiration);
      } else {
        DownStaysDown(w', acts[1..], expiration);
      }
    }
  }

  /** A probe takes a RUNNING row OFFLINE or leaves its state alone. */
  lemma RunningOrDown(w: World, a: Action, expiration: nat)
    requires Enabled(w, a) && a.Probing?
    ensures var r := Current(Step(w, a, expiration));
            r.state == Current(w).state || GoesDown(Current(w), r)
  {}

  // ---------------------------------------------------------------- heartbeats

  /** Probes only, none of which reads the value `h` off its clock. */
  predicate NeverReads(acts: seq<Action>, h: nat) {
    forall i :: 0 <= i < |acts| ==> acts[i].Probing? && acts[i].now != h
  }

  lemma StepHeartbeat(w: World, a: Action, expiration: nat)
    requires Enabled(w, a) && a.Probing?
    ensures var r := Current(Step(w, a, expiration)); r.heartbeat == Current(w).heartbeat || r.heartbeat == a.now
  {}

  /** A heartbeat that has been overwritten comes back only if some clock reads it again. */
  lemma {:induction false} HeartbeatStaysAway(w: World, acts: seq<Action>, expiration: nat, h: nat)
    requires WellFormed(w) && EnabledRun(w, acts, expiration) && NeverReads(acts, h) && Current(w).heartbeat != h
    ensures var v := Run(w, acts, expiration); w.history <= v.history && Current(v).heartbeat != h
    decreases |acts|
  {
    if acts != [] {
      hide Explored;
      StepHeartbeat(w, acts[0], expiration);
      HeartbeatStaysAway(Step(w, acts[0], expiration), acts[1..], expiration, h);
    }
  }

  /** Probes that read one clock, which shows at least `clock` and never goes back. */
  predicate OneClock(acts: seq<Action>, clock: nat)
    decreases |acts|
  {
    acts == [] || (acts[0].Probing? && acts[0].now >= clock && OneClock(acts[1..], acts[0].now))
  }

  function LastClock(acts: seq<Action>, clock: nat): nat
    requires OneClock(acts, clock)
    decreases |acts|
  {
    if acts == [] then clock else LastClock(acts[1..], acts[0].now)
  }

  /** From version `from` on the heartbeats do not go back. */
  predicate Rising(history: seq<Row>, from: nat) {
    forall i, j :: from <= i < j < |history| ==> history[i].heartbeat <= history[j].heartbeat
  }

  lemma {:induction false} ClockRises(w: World, acts: seq<Action>, expiration: nat, clock: nat, from: nat)
    requires WellFormed(w) && EnabledRun(w, acts, expiration) && OneClock(acts, clock)
    requires from < |w.history| && Rising(w.history, from) && Current(w).heartbeat <= clock
    ensures var v := Run(w, acts, expiration);
            WellFormed(v) && Rising(v.history, from) && Current(v).heartbeat <= LastClock(acts, clock)
    decreases |acts|
  {
    if acts != [] {
      hide Explored;
      var w' := Step(w, acts[0], expiration);
      StepHeartbeat(w, acts[0], expiration);
      assert w'.history == w.history + [Current(w')];
      RisingAppend(w.history, Current(w'), from);
      ClockRises(w', acts[1..], expiration, acts[0].now, from);
    }
  }

  lemma RisingAppend(history: seq<Row>, row: Row, from: nat)
    requires from < |history| && Rising(history, from) && history[|history| - 1].heartbeat <= row.heartbeat
    ensures Rising(history + [row], from)
  {}

  lemma {:induction false} LaterReads(acts: seq<Action>, clock: nat, h: nat)
    requires OneClock(acts, clock) && h < clock
    ensures NeverReads(acts, h)
    decreases |acts|
  {
    if acts != [] {
      LaterReads(acts[1..], acts[0].now, h);
      assert forall i :: 0 < i < |acts| ==> acts[i] == acts[1..][i - 1];
    }
  }

  /** Over a run with one clock for all nodes, a heartbeat overwritten on the way is never read again. */
  lemma {:induction false} OneClockNeverReads(
    w: World, acts: seq<Action>, later: seq<Action>, expiration: nat, clock: nat, at: nat)
    requires WellFormed(w) && Current(w).heartbeat <= clock && EnabledRun(w, acts, expiration)
    requires OneClock(acts, clock) && OneClock(later, LastClock(acts, clock))
    requires |w.history| - 1 <= at < |Run(w, acts, expiration).history| && WellFormed(Run(w, acts, expiration))
    ensures var v := Run(w, acts, expiration);
            v.history[at].heartbeat != Current(v).heartbeat ==> NeverReads(later, v.history[at].heartbeat)
  {
    var v := Run(w, acts, expiration);
    ClockRises(w, acts, expiration, clock, |w.history| - 1);
    if v.history[at].heartbeat != Current(v).heartbeat {
      LaterReads(later, LastClock(acts, clock), v.history[at].heartbeat);
    }
  }

  /**
   * A snapshot of a row that has been refreshed since, however the probes were
   * interleaved, takes the instance offline if and only if it was read before the first heartbeat ever (it then compares
   * no heartbeat) and agrees with the row on the columns it does compare.
   */
  lemma {:induction false} StaleSnapshot(w: World, acts: seq<Action>, expiration: nat, at: nat, now: nat, p: nat)
    requires WellFormed(w) && EnabledRun(w, acts, expiration) && at < |w.history|
    requires Current(w).heartbeat != w.history[at].heartbeat && NeverReads(acts, w.history[at].heartbeat)
    requires Expired(w.history[at], now, expiration)
    ensures var v := Run(w, acts, expiration);
            var a := Probing(p, at, Silent(false), now);
            && Enabled(v, a)
            && (GoesDown(Current(v), Current(Step(v, a, expiration))) <==>
                  w.history[at].heartbeat == 0 && Matches(Current(v), w.history[at]))
  {
    var v := Run(w, acts, expiration);
    HeartbeatStaysAway(w, acts, expiration, w.history[at].heartbeat);
    assert v.history[at] == w.history[at];
  }

  /** So a snapshot that carries a heartbeat can never do it. */
  lemma {:induction false} RefreshedIsSafe(w: World, acts: seq<Action>, expiration: nat, at: nat, now: nat, p: nat)
    requires WellFormed(w) && EnabledRun(w, acts, expiration) && at < |w.history|
    requires w.history[at].heartbeat != 0 && w.history[at].heartbeat != Current(w).heartbeat
    requires NeverReads(acts, w.history[at].heartbeat)
    ensures var v := Run(w, acts, expiration);
            && WellFormed(v)
            && Explored(Current(v), v.callbacks, p, w.history[at], Silent(false), now, expiration)
            == (Current(v), v.callbacks)
  {
    HeartbeatStaysAway(w, acts, expiration, w.history[at].heartbeat);
  }

  /** Every value the row has had carries a heartbeat. */
  predicate AllBeaten(history: seq<Row>) {
    forall i :: 0 <= i < |history| ==> history[i].heartbeat != 0
  }

  /** Whenever the row goes down, more than the expiration has passed since the heartbeat it holds. */
  predicate NeverEarly(w: World, acts: seq<Action>, expiration: nat)
    requires WellFormed(w) && EnabledRun(w, acts, expiration)
    decreases |acts|
  {
    acts == [] ||
    var w' := Step(w, acts[0], expiration);
    && (GoesDown(Current(w), Current(w')) ==> acts[0].Probing? && acts[0].now > Current(w).heartbeat + expiration)
    && NeverEarly(w', acts[1..], expiration)
  }

  lemma {:induction false} DownIsLate(w: World, a: Action, expiration: nat)
    requires Enabled(w, a) && a.Probing? && GoesDown(Current(w), Current(Step(w, a, expiration)))
    requires a.now >= Current(w).heartbeat && w.history[a.snapAt].heartbeat != 0
    ensures a.now > Current(w).heartbeat + expiration
  {
    GoesDownIff(w, a, expiration);
    var h := Current(w).heartbeat;
    assert w.history[a.snapAt].heartbeat == h;
    assert (a.now - h) % 0x1_0000_0000_0000_0000 <= a.now - h;
  }

  /**
   * Over every run of probes with one clock, of a row that always had a heartbeat,
   * the row never goes OFFLINE within the expiration of the heartbeat it holds.
   */
  lemma {:induction false} NoEarlyOffline(w: World, acts: seq<Action>, expiration: nat, clock: nat)
    requires WellFormed(w) && EnabledRun(w, acts, expiration) && OneClock(acts, clock)
    requires AllBeaten(w.history) && Current(w).heartbeat <= clock
    ensures NeverEarly(w, acts, expiration)
    decreases |acts|
  {
    if acts != [] {
      hide Explored, GoesDown;
      var a := acts[0];
      var w' := Step(w, a, expiration);
      StepHeartbeat(w, a, expiration);
      assert w'.history == w.history + [Current(w')];
      assert AllBeaten(w'.history) by { StillBeaten(w, a, expiration); }
      if GoesDown(Current(w), Current(w')) {
        DownIsLate(w, a, expiration);
      }
      NoEarlyOffline(w', acts[1..], expiration, a.now);
    }
  }

  /** A zero clock leaves the heartbeat alone. */
  lemma StillBeaten(w: World, a: Action, expiration: nat)
    requires Enabled(w, a) && a.Probing? && Current(w).heartbeat != 0
    ensures Current(Step(w, a, expiration)).heartbeat != 0
  {}

  /** With one clock for all nodes this holds of every snapshot with a heartbeat that was overwritten on the way. */
  lemma {:induction false} OneClockIsSafe(
    w: World, acts: seq<Action>, later: seq<Action>, expiration: nat, clock: nat, at: nat, now: nat, p: nat)
    requires WellFormed(w) && Current(w).heartbeat <= clock && EnabledRun(w, acts, expiration)
    requires OneClock(acts, clock) && OneClock(later, LastClock(acts, clock))
    requires WellFormed(Run(w, acts, expiration)) && EnabledRun(Run(w, acts, expiration), later, expiration)
    requires |w.history| - 1 <= at < |Run(w, acts, expiration).history|
    requires Run(w, acts, expiration).history[at].heartbeat != 0
    requires Run(w, acts, expiration).history[at].heartbeat != Current(Run(w, acts, expiration)).heartbeat
    ensures var u := Run(w, acts, expiration);
            var v := Run(u, later, expiration);
            && WellFormed(v)
            && Explored(Current(v), v.callbacks, p, u.history[at], Silent(false), now, expiration)
            == (Current(v), v.callbacks)
  {
    hide Run, EnabledRun;
    OneClockNeverReads(w, acts, later, expiration, clock, at);
    RefreshedIsSafe(Run(w, acts, expiration), later, expiration, at, now, p);
  }

  /** A row that never had a heartbeat is refreshed, and a prober that read it earlier still takes it offline. */
  lemma FirstHeartbeatIsNotProtected(place: string, config: string)
    ensures var row := Row("i", place, Running, config, 0, UNSET_DELAY, 0);
            var w := World([row], []);
            var report := Probing(1, 0, Report(0, 0), 200);
            var stale := Probing(2, 0, Silent(false), 200);
            && Enabled(w, report) && Enabled(Step(w, report, 10), stale)
            && Current(Step(w, report, 10)).heartbeat == 200
            && GoesDown(Current(Step(w, report, 10)), Current(Step(Step(w, report, 10), stale, 10)))
  {}

  /** Two refreshes, the second by a node whose clock is behind: a snapshot from before both takes the row offline. */
  lemma SlowClockUndoesProtection(place: string, config: string)
    ensures var row := Row("i", place, Running, config, 100, 0, 7);
            var w := World([row], []);
            var w1 := Step(w, Probing(1, 0, Report(0, 7), 200), 10);
            && Enabled(w1, Probing(2, 1, Report(0, 7), 100))
            && var w2 := Step(w1, Probing(2, 1, Report(0, 7), 100), 10);
            && Current(w1).heartbeat == 200 && Current(w2).heartbeat == 100
            && Enabled(w2, Probing(3, 0, Silent(false), 200))
            && GoesDown(Current(w2), Current(Step(w2, Probing(3, 0, Silent(false), 200), 10)))
  {
    var row := Row("i", place, Running, config, 100, 0, 7);
    var w := World([row], []);
    var w1 := Step(w, Probing(1, 0, Report(0, 7), 200), 10);
    assert w1.history[1] == row.(heartbeat := 200);
    var w2 := Step(w1, Probing(2, 1, Report(0, 7), 100), 10);
    assert w2.history[0] == row && w2.history[2] == row;
  }
}
