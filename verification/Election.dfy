/**
 * Master election over the tenant's row in the meta database. Every database
 * statement is one atomic step; elections of any number of nodes interleave between statements.
 */
module Election {
  import opened Wrappers

  /** The tenant's row: absent, or its master column, empty when there is no master. */
  type Row = Option<string>

  // ---------------------------------------------------------------- statements

  /** The row as an object, one method per statement. */
  class PrimaryTable {
    var row: Row

    constructor ()
      ensures row == None
    {
      row := None;
    }

    /** `add_primary_instance`: the primary key refuses a second row of the tenant. */
    method Add(master: string) returns (ok: bool)
      modifies this
      ensures ok <==> old(row) == None
      ensures row == Insert(old(row), master)
    {
      if row != None {
        return false;
      }
      row := Some(master);
      return true;
    }

    /** `update_primary_instance`: succeeds only if the condition names the current master. */
    method Update(master: string, expected: string) returns (ok: bool)
      modifies this
      ensures ok <==> old(row) == Some(expected)
      ensures row == Swap(old(row), expected, master)
    {
      if row != Some(expected) {
        return false;
      }
      row := Some(master);
      return true;
    }

    /** `reset_master_instance` with no statement of another node in between */
    method ResetMaster(instance: string) returns (ok: bool)
      modifies this
      ensures ok <==> old(row) == Some(instance)
      ensures row == Swap(old(row), instance, "")
    {
      ok := Update("", instance);
    }

    /** `determine_primary_instance` with no statement of another node in between */
    method DeterminePrimary(instance: string) returns (ok: bool, master: string)
      modifies this
      ensures ok && row == Some(master)
      ensures row == if old(row) == None || old(row) == Some("") then Some(instance) else old(row)
    {
      var seen := row;
      if seen == None {
        ok := Add(instance);
        master := instance;
      } else {
        ok := Update(instance, "");
        if ok {
          master := instance;
        } else {
          var again := row;
          master := again.value;
          ok := true;
        }
      }
    }

    /** An election with no statement of another node in between is a run of the program alone. */
    method ElectAlone(instance: string, against: string) returns (master: string)
      requires instance != ""
      modifies this
      ensures var p := Proc(Reset(false), instance, against, false, 0);
              (row, p.(pc := Done(master))) == Alone(old(row), p, false, STATEMENTS)
    {
      AloneReports(row, Proc(Reset(false), instance, against, false, 0), false);
      var _ := ResetMaster(against);
      var ok;
      ok, master := DeterminePrimary(instance);
    }
  }

  function Insert(row: Row, master: string): Row {
    if row == None then Some(master) else row
  }

  function Swap(row: Row, expected: string, master: string): Row {
    if row == Some(expected) then Some(master) else row
  }

  // ---------------------------------------------------------------- one node's program

  /**
   * Where a node is. `Look` is the first query of `try_elect_master`; `Reset`
   * the conditional clearing of the master it was started against; `Query`, `Add`, `Swap`, `Again` the statements of
   * `determine_primary_instance`; `Done` the name handed to the caller, empty when none was.
   */
  datatype Pc =
    | Look
    | Reset(mustSucceed: bool)
    | Query
    | Add
    | Take(seen: string)
    | Again(seen: string)
    | Done(reported: string)

  /**
   * `against` is the master the election was started against, empty when a switch
   * found none, and `start` the version of the row when the call began.
   */
  datatype Proc = Proc(pc: Pc, candidate: string, against: string, onlyReset: bool, start: nat)

  /** Every value the row has had, the last one current, and every election ever started. */
  datatype World = World(history: seq<Row>, procs: seq<Proc>)

  datatype Action =
    | Elect(candidate: string, against: string, onlyReset: bool)
    | TryElect(candidate: string)
    | Run(proc: nat, masterDropped: bool, queryFails: bool)

  function Current(w: World): Row
    requires w.history != []
  {
    w.history[|w.history| - 1]
  }

  predicate Enabled(w: World, a: Action) {
    && w.history != []
    && match a
       case Elect(c, _, _) => c != ""
       case TryElect(c) => c != ""
       case Run(i, _, _) => i < |w.procs| && !w.procs[i].pc.Done?
  }

  /** One statement of one node: the row it leaves and where the node goes on. */
  function Statement(row: Row, p: Proc, masterDropped: bool, queryFails: bool): (Row, Proc)
    requires !p.pc.Done?
  {
    match p.pc
    case Look =>
      if queryFails then (row, p.(pc := Done("")))
      else if row == None || row == Some("") then (row, p.(pc := Query))
      else if masterDropped then (row, p.(pc := Reset(true), against := row.value))
      else (row, p.(pc := Done("")))
    case Reset(mustSucceed) =>
      var goOn := row == Some(p.against) || !mustSucceed;
      (Swap(row, p.against, ""), p.(pc := if goOn && !p.onlyReset then Query else Done("")))
    case Query =>
      if queryFails then (row, p.(pc := Done("")))
      else if row == None then (row, p.(pc := Add))
      else (row, p.(pc := Take(row.value)))
    case Add => (Insert(row, p.candidate), p.(pc := Done(if row == None then p.candidate else "")))
    case Take(seen) =>
      (Swap(row, "", p.candidate), p.(pc := if row == Some("") then Done(p.candidate) else Again(seen)))
    case Again(seen) =>
      (row, p.(pc := Done(if queryFails || row == None then seen else row.value)))
  }

  function Step(w: World, a: Action): (w': World)
    requires Enabled(w, a)
    ensures |w'.history| == |w.history| + 1
  {
    var now := |w.history| - 1;
    match a
    case Elect(c, p, only) =>
      World(w.history + [Current(w)], w.procs + [Proc(Reset(false), c, p, only, now)])
    case TryElect(c) =>
      World(w.history + [Current(w)], w.procs + [Proc(Look, c, "", false, now)])
    case Run(i, dropped, fails) =>
      var r := Statement(Current(w), w.procs[i], dropped, fails);
      World(w.history + [r.0], w.procs[i := r.1])
  }

  predicate EnabledRun(w: World, acts: seq<Action>)
    decreases |acts|
  {
    acts == [] || (Enabled(w, acts[0]) && EnabledRun(Step(w, acts[0]), acts[1..]))
  }

  function RunAll(w: World, acts: seq<Action>): World
    requires EnabledRun(w, acts)
    decreases |acts|
  {
    if acts == [] then w else RunAll(Step(w, acts[0]), acts[1..])
  }

  // ---------------------------------------------------------------- what every interleaving keeps

  /** The row was created with a master, was given one while it had none, or lost the one it had. */
  predicate Moves(before: Row, after: Row) {
    || before == after
    || ((before == None || before == Some("")) && after.Some? && after.value != "")
    || (before.Some? && before.value != "" && after == Some(""))
  }

  /** Some version of the row since the call began held the name. */
  predicate HeldSince(history: seq<Row>, start: nat, name: string) {
    exists i :: start <= i < |history| && history[i] == Some(name)
  }

  predicate ProcInv(history: seq<Row>, p: Proc) {
    && p.start < |history| && p.candidate != ""
    && (p.pc.Take? ==> HeldSince(history, p.start, p.pc.seen))
    && (p.pc.Again? ==> HeldSince(history, p.start, p.pc.seen))
    && (p.pc.Done? && p.pc.reported != "" ==> HeldSince(history, p.start, p.pc.reported))
  }

  predicate Inv(w: World) {
    && w.history != []
    && (forall i :: 0 <= i < |w.history| - 1 ==> Moves(w.history[i], w.history[i + 1]))
    && (forall i :: 0 <= i < |w.procs| ==> ProcInv(w.history, w.procs[i]))
  }

  lemma HeldLonger(history: seq<Row>, row: Row, p: Proc)
    requires ProcInv(history, p)
    ensures ProcInv(history + [row], p)
  {
    var longer := history + [row];
    forall name | HeldSince(history, p.start, name)
      ensures HeldSince(longer, p.start, name)
    {
      var i :| p.start <= i < |history| && history[i] == Some(name);
      assert longer[i] == Some(name);
    }
  }

  lemma StatementKeeps(history: seq<Row>, p: Proc, dropped: bool, fails: bool)
    requires history != [] && ProcInv(history, p) && !p.pc.Done?
    ensures var row := history[|history| - 1];
            var r := Statement(row, p, dropped, fails);
            Moves(row, r.0) && ProcInv(history + [r.0], r.1)
  {
    var n := |history| - 1;
    var row := history[n];
    var r := Statement(row, p, dropped, fails);
    var longer := history + [r.0];
    HeldLonger(history, r.0, p);
    assert longer[n] == row && longer[n + 1] == r.0;
  }

  lemma StepKeeps(w: World, a: Action)
    requires Inv(w) && Enabled(w, a)
    ensures Inv(Step(w, a))
  {
    var w' := Step(w, a);
    var row := Current(w');
    assert w'.history == w.history + [row];
    forall i | 0 <= i < |w.procs|
      ensures ProcInv(w'.history, w.procs[i])
    {
      HeldLonger(w.history, row, w.procs[i]);
    }
    if a.Run? {
      StatementKeeps(w.history, w.procs[a.proc], a.masterDropped, a.queryFails);
    }
    forall i | 0 <= i < |w'.history| - 1
      ensures Moves(w'.history[i], w'.history[i + 1])
    {
      if i < |w.history| - 1 {
        assert Moves(w.history[i], w.history[i + 1]);
      }
    }
  }

  lemma {:induction false} RunKeeps(w: World, acts: seq<Action>)
    requires Inv(w) && EnabledRun(w, acts)
    ensures Inv(RunAll(w, acts))
    decreases |acts|
  {
    if acts != [] {
      hide Inv;
      StepKeeps(w, acts[0]);
      RunKeeps(Step(w, acts[0]), acts[1..]);
    }
  }

  // ---------------------------------------------------------------- main results

  /** From an absent row, over any interleaving, the master only moves from empty to a name and from a name to empty. */
  lemma MasterMoves(acts: seq<Action>, i: nat)
    requires EnabledRun(World([None], []), acts)
    requires i + 1 < |RunAll(World([None], []), acts).history|
    ensures var h := RunAll(World([None], []), acts).history;
            Moves(h[i], h[i + 1])
  {
    RunKeeps(World([None], []), acts);
  }

  /** Any name reported as master was held by the row at some moment of the reporting call. */
  lemma ReportedWasHeld(acts: seq<Action>, i: nat)
    requires EnabledRun(World([None], []), acts)
    requires i < |RunAll(World([None], []), acts).procs|
    ensures var w := RunAll(World([None], []), acts);
            var p := w.procs[i];
            p.pc.Done? && p.pc.reported != "" ==> HeldSince(w.history, p.start, p.pc.reported)
  {
    RunKeeps(World([None], []), acts);
  }

  /**
   * A statement takes a master away only if it is the reset of an election
   * started against that very master, and installs only its own candidate; so an election against an old master never
   * deposes a newer one.
   */
  lemma NeverDeposesAnother(w: World, a: Action)
    requires Inv(w) && Enabled(w, a) && Current(Step(w, a)) != Current(w)
    ensures a.Run?
    ensures var p := w.procs[a.proc];
            && (Current(w).Some? && Current(w).value != "" ==>
                  p.pc.Reset? && p.against == Current(w).value && Current(Step(w, a)) == Some(""))
            && (Current(w) == None || Current(w) == Some("") ==> Current(Step(w, a)) == Some(p.candidate))
  {
    assert ProcInv(w.history, w.procs[a.proc]);
  }

  /** Between two different masters the row was empty: no interleaving hands mastership over directly. */
  lemma {:induction false} VacantBetween(w: World, i: nat, j: nat)
    requires Inv(w) && i < j < |w.history|
    requires w.history[i].Some? && w.history[i].value != ""
    requires w.history[j].Some? && w.history[j].value != "" && w.history[i] != w.history[j]
    ensures exists k :: i < k < j && w.history[k] == Some("")
    decreases j - i
  {
    var next := w.history[i + 1];
    assert Moves(w.history[i], next);
    if next != Some("") {
      VacantBetween(w, i + 1, j);
    } else {
      assert i + 1 < j;
    }
  }

  // ---------------------------------------------------------------- progress

  /** No election takes more statements. */
  const STATEMENTS: nat := 5

  /** How many statements a node has left at most. */
  function Left(pc: Pc): nat {
    match pc
    case Look => 5
    case Reset(_) => 4
    case Query => 3
    case Take(_) => 2
    case Add | Again(_) => 1
    case Done(_) => 0
  }

  /** Up to `n` statements of one node, none of which fails, with nobody else in between. */
  function Alone(row: Row, p: Proc, masterDropped: bool, n: nat): (Row, Proc)
    decreases n
  {
    if n == 0 || p.pc.Done? then (row, p)
    else
      var r := Statement(row, p, masterDropped, false);
      Alone(r.0, r.1, masterDropped, n - 1)
  }

  /** What an election of `candidate` against `against` should make of the row. */
  function Elected(row: Row, candidate: string, against: string): Row {
    if row == None || row == Some("") || row == Some(against) then Some(candidate) else row
  }

  /**
   * Alone, an election from an absent or empty row, or one that holds the master
   * it was started against, installs and reports its candidate; any other master stays and is reported.
   */
  lemma AloneReports(row: Row, p: Proc, dropped: bool)
    requires p.pc == Reset(false) && !p.onlyReset && p.candidate != ""
    ensures var end := Elected(row, p.candidate, p.against);
            end.Some? && Alone(row, p, dropped, STATEMENTS) == (end, p.(pc := Done(end.value)))
  {
    var r1 := Statement(row, p, dropped, false);
    var r2 := Statement(r1.0, r1.1, dropped, false);
    var r3 := Statement(r2.0, r2.1, dropped, false);
    AloneStep(row, p, dropped, 4);
    AloneStep(r1.0, r1.1, dropped, 3);
    AloneStep(r2.0, r2.1, dropped, 2);
    if r3.1.pc.Done? {
      AloneDone(r3.0, r3.1, dropped, 2);
    } else {
      AloneStep(r3.0, r3.1, dropped, 1);
      var r4 := Statement(r3.0, r3.1, dropped, false);
      AloneDone(r4.0, r4.1, dropped, 1);
    }
  }

  lemma AloneStep(row: Row, p: Proc, dropped: bool, n: nat)
    requires !p.pc.Done?
    ensures var r := Statement(row, p, dropped, false); Alone(row, p, dropped, n + 1) == Alone(r.0, r.1, dropped, n)
  {}

  lemma AloneDone(row: Row, p: Proc, dropped: bool, n: nat)
    requires p.pc.Done?
    ensures Alone(row, p, dropped, n) == (row, p)
  {}

  /**
   * Alone, an attempt that begins with a look installs its candidate when there
   * is no master or the master has dropped out, and otherwise changes and reports nothing.
   */
  lemma AttemptReports(row: Row, p: Proc, dropped: bool)
    requires p.pc == Look && !p.onlyReset && p.candidate != ""
    ensures var r := Alone(row, p, dropped, STATEMENTS);
            if row == None || row == Some("") || dropped then r.0 == Some(p.candidate) && r.1.pc == Done(p.candidate)
            else r.0 == row && r.1.pc == Done("")
  {
    var r1 := Statement(row, p, dropped, false);
    AloneStep(row, p, dropped, 4);
    if r1.1.pc.Done? {
      AloneDone(r1.0, r1.1, dropped, 4);
    } else {
      var r2 := Statement(r1.0, r1.1, dropped, false);
      AloneStep(r1.0, r1.1, dropped, 3);
      AloneStep(r2.0, r2.1, dropped, 2);
      var r3 := Statement(r2.0, r2.1, dropped, false);
      if r3.1.pc.Done? {
        AloneDone(r3.0, r3.1, dropped, 2);
      } else {
        AloneStep(r3.0, r3.1, dropped, 1);
        var r4 := Statement(r3.0, r3.1, dropped, false);
        AloneDone(r4.0, r4.1, dropped, 1);
      }
    }
  }

  /** Alone, a mere reset empties the row of the master it names and reports nothing. */
  lemma ResetReports(row: Row, p: Proc, dropped: bool)
    requires p.pc == Reset(false) && p.onlyReset
    ensures Alone(row, p, dropped, STATEMENTS)
         == (if row == Some(p.against) then Some("") else row, p.(pc := Done("")))
  {
    AloneStep(row, p, dropped, 4);
    var r := Statement(row, p, dropped, false);
    AloneDone(r.0, r.1, dropped, 4);
  }

  /** The statements of process `i` in a run. */
  function StatementsOf(acts: seq<Action>, i: nat): nat {
    if acts == [] then 0
    else (if acts[0].Run? && acts[0].proc == i then 1 else 0) + StatementsOf(acts[1..], i)
  }

  /** Under every interleaving each statement of a process brings it closer to its end. */
  lemma {:induction false} EveryProcessEnds(w: World, acts: seq<Action>, i: nat)
    requires EnabledRun(w, acts) && i < |w.procs|
    ensures |RunAll(w, acts).procs| >= |w.procs|
    ensures StatementsOf(acts, i) + Left(RunAll(w, acts).procs[i].pc) <= Left(w.procs[i].pc)
    decreases |acts|
  {
    if acts != [] {
      hide Statement;
      var w' := Step(w, acts[0]);
      if acts[0].Run? {
        StatementMovesOn(Current(w), w.procs[acts[0].proc], acts[0].masterDropped, acts[0].queryFails);
      }
      EveryProcessEnds(w', acts[1..], i);
    }
  }

  lemma StatementMovesOn(row: Row, p: Proc, dropped: bool, fails: bool)
    requires !p.pc.Done?
    ensures Left(Statement(row, p, dropped, fails).1.pc) < Left(p.pc) <= STATEMENTS
  {}

  /** Why a statement may end a call without a name. */
  predicate Cause(row: Row, p: Proc, a: Action)
    requires a.Run?
  {
    match p.pc
    case Look => a.queryFails || (!a.masterDropped && row.Some? && row.value != "")
    case Reset(mustSucceed) => p.onlyReset || (mustSucceed && row != Some(p.against))
    case Query => a.queryFails
    case Add => row != None
    case Again(seen) => if a.queryFails || row == None then seen == "" else row == Some("")
    case _ => false
  }

  /**
   * Under every interleaving, a call that ends without a name does so because a
   * query failed, a present master was not dropped, it was only a reset, its reset or its insert was refused, or the
   * empty row it had seen was taken by another and cannot be read or is empty again.
   */
  lemma {:induction false} NoNameHasCause(w: World, acts: seq<Action>, i: nat) returns (k: nat)
    requires EnabledRun(w, acts) && i < |w.procs| && w.procs[i].candidate != "" && !w.procs[i].pc.Done?
    requires |RunAll(w, acts).procs| >= |w.procs| && RunAll(w, acts).procs[i].pc == Done("")
    ensures k < |acts| && EnabledRun(w, acts[..k]) && |RunAll(w, acts[..k]).procs| >= |w.procs|
    ensures acts[k].Run? && acts[k].proc == i
    ensures RunAll(w, acts[..k]).history != []
    ensures Cause(Current(RunAll(w, acts[..k])), RunAll(w, acts[..k]).procs[i], acts[k])
    decreases |acts|
  {
    hide Statement, Cause;
    var a := acts[0];
    var w' := Step(w, a);
    if a.Run? {
      SameCandidate(Current(w), w.procs[a.proc], a.masterDropped, a.queryFails);
    }
    if w'.procs[i].pc.Done? {
      StaysDone(w', acts[1..], i);
      EndsWithCause(Current(w), w.procs[i], a);
      k := 0;
      assert acts[..0] == [];
    } else {
      EveryProcessEnds(w', acts[1..], i);
      k := NoNameHasCause(w', acts[1..], i);
      assert acts[..k + 1][1..] == acts[1..][..k];
      k := k + 1;
    }
  }

  lemma SameCandidate(row: Row, p: Proc, dropped: bool, fails: bool)
    requires !p.pc.Done?
    ensures Statement(row, p, dropped, fails).1.candidate == p.candidate
  {}

  lemma EndsWithCause(row: Row, p: Proc, a: Action)
    requires !p.pc.Done? && a.Run? && p.candidate != ""
    ensures Statement(row, p, a.masterDropped, a.queryFails).1.pc == Done("") <==> Cause(row, p, a)
  {}

  lemma {:induction false} StaysDone(w: World, acts: seq<Action>, i: nat)
    requires EnabledRun(w, acts) && i < |w.procs| && w.procs[i].pc.Done?
    ensures |RunAll(w, acts).procs| >= |w.procs| && RunAll(w, acts).procs[i] == w.procs[i]
    decreases |acts|
  {
    if acts != [] {
      hide Statement;
      StaysDone(Step(w, acts[0]), acts[1..], i);
    }
  }

  /**
   * Under every interleaving, the statement that ends a call with a name leaves
   * the row with that very master, unless the last query failed or found no row.
   */
  lemma ReportIsCurrent(w: World, a: Action)
    requires Enabled(w, a) && a.Run? && !a.queryFails && Current(w).Some?
    ensures var p := Step(w, a).procs[a.proc];
            p.pc.Done? && p.pc.reported != "" ==> Current(Step(w, a)) == Some(p.pc.reported)
  {}
}
