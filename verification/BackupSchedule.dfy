/** The daily backup scheduler, manual runs beside it, and restarts (src/dbbackup.rs:780-795, 944-1025;
    src/api.rs:5193-5252). */
module BackupSchedule {
  import opened Text

  type Project = string
  type Date = nat      // days, in order
  type Minute = nat    // minutes since midnight

  datatype Progress = Idle | Running | Success | Failed

  /** A row of db_backup_schedules; `time` is None if the stored time does not parse. */
  datatype Row = Row(enabled: bool, time: Option<Minute>, last: Option<Date>, status: Progress)
  type Rows = map<Project, Row>

  /** A backup started by the scheduler: for which date, at what time of the tick, and the time it was due. */
  datatype Start = Start(project: Project, date: Date, minute: Minute, due: Minute)

  /** Where the scheduler task is. */
  datatype Pass =
    | Asleep
    | Ticked(today: Date, minute: Minute)
    | Looping(today: Date, minute: Minute, pending: Rows)
    | AtGate(today: Date, minute: Minute, project: Project, due: Minute, listed: Option<Date>, pending: Rows)
    | BackingUp(today: Date, minute: Minute, project: Project, pending: Rows)

  /** `held`: the projects whose gate a backup run holds. `manual`: those of them whose manual run has read the
      date and not yet written its row. `log`: the scheduler's starts that no restart interrupted; `ran`: for which
      dates backups were started, by the scheduler or by hand, and not interrupted. */
  datatype State = State(date: Date, minute: Minute, rows: Rows, pass: Pass, held: set<Project>, manual: map<Project, Date>,
                         log: seq<Start>, ran: set<(Project, Date)>)

  datatype Event =
    | Advance(date: Date, minute: Minute)
    | SaveSchedule(p: Project, enabled: bool, time: Option<Minute>)
    | Tick
    | ReadList
    | Consider(p: Project)
    | EnterGate
    | Finish(ok: bool)
    | EndPass
    | ManualEnter(p: Project)
    | ManualStart(p: Project)
    | ManualFinish(p: Project, ok: bool)
    | Restart

  /** The first check of the loop, on the row as listed. */
  predicate Due(row: Row, today: Date, minute: Minute)
  {
    row.time.Some? && row.last != Some(today) && minute >= row.time.value
  }

  predicate Enabled(s: State, e: Event)
  {
    match e
    case Advance(date, minute) => s.date < date || (s.date == date && s.minute <= minute)
    case SaveSchedule(_, _, _) => true
    case Tick => s.pass.Asleep?
    case ReadList => s.pass.Ticked?
    case Consider(p) => s.pass.Looping? && p in s.pass.pending
    case EnterGate => s.pass.AtGate? && s.pass.project !in s.held
    case Finish(_) => s.pass.BackingUp?
    case EndPass => s.pass.Ticked? || (s.pass.Looping? && s.pass.pending == map[])
    case ManualEnter(p) => p in s.rows && p !in s.held
    case ManualStart(p) => p in s.manual && p in s.rows
    case ManualFinish(p, _) => p in s.held && p !in s.manual && !(s.pass.BackingUp? && s.pass.project == p)
    case Restart => true
  }

  /** set_run_status at the end of a run. */
  function FinishRow(rows: Rows, p: Project, ok: bool): Rows
  {
    if p in rows then rows[p := rows[p].(status := if ok then Success else Failed)] else rows
  }

  /** set_run_status at the start of a run. */
  function StartRow(rows: Rows, p: Project, date: Date): Rows
    requires p in rows
  {
    rows[p := rows[p].(last := Some(date), status := Running)]
  }

  function SaveRow(rows: Rows, p: Project, enabled: bool, time: Option<Minute>): Rows
  {
    rows[p := if p in rows then rows[p].(enabled := enabled, time := time) else Row(enabled, time, None, Idle)]
  }

  function ListEnabled(rows: Rows): Rows
  {
    map p | p in rows && rows[p].enabled :: rows[p]
  }

  /** What the scheduler does before anything else: rows left "running" are due again. */
  function Recover(rows: Rows): Rows
  {
    map p | p in rows :: if rows[p].status.Running? then rows[p].(last := None, status := Failed) else rows[p]
  }

  predicate Interrupted(rows: Rows, p: Project, date: Date)
  {
    p in rows && rows[p].status.Running? && rows[p].last == Some(date)
  }

  function Uninterrupted(rows: Rows, log: seq<Start>): seq<Start>
  {
    if log == [] then []
    else if Interrupted(rows, log[0].project, log[0].date) then Uninterrupted(rows, log[1..])
    else [log[0]] + Uninterrupted(rows, log[1..])
  }

  function Next(s: State, e: Event): State
    requires Enabled(s, e)
  {
    match e
    case Advance(date, minute) => s.(date := date, minute := minute)
    case SaveSchedule(p, enabled, time) => s.(rows := SaveRow(s.rows, p, enabled, time))
    case Tick => s.(pass := Ticked(s.date, s.minute))
    case ReadList => s.(pass := Looping(s.pass.today, s.pass.minute, ListEnabled(s.rows)))
    case Consider(p) =>
      var Looping(today, minute, pending) := s.pass;
      if Due(pending[p], today, minute) then
        s.(pass := AtGate(today, minute, p, pending[p].time.value, pending[p].last, pending - {p}))
      else s.(pass := Looping(today, minute, pending - {p}))
    case EnterGate =>
      var AtGate(today, minute, p, due, listed, pending) := s.pass;
      if Starts(s) then
        s.(pass := BackingUp(today, minute, p, pending), held := s.held + {p},
           rows := StartRow(s.rows, p, today), log := s.log + [Start(p, today, minute, due)], ran := s.ran + {(p, today)})
      else s.(pass := Looping(today, minute, pending))
    case Finish(ok) =>
      var BackingUp(today, minute, p, pending) := s.pass;
      s.(pass := Looping(today, minute, pending), held := s.held - {p}, rows := FinishRow(s.rows, p, ok))
    case EndPass => s.(pass := Asleep)
    case ManualEnter(p) => s.(held := s.held + {p}, manual := s.manual[p := s.date])
    case ManualStart(p) =>
      s.(rows := StartRow(s.rows, p, s.manual[p]), manual := s.manual - {p}, ran := s.ran + {(p, s.manual[p])})
    case ManualFinish(p, ok) => s.(held := s.held - {p}, rows := FinishRow(s.rows, p, ok))
    case Restart =>
      s.(pass := Asleep, held := {}, manual := map[], rows := Recover(s.rows), log := Uninterrupted(s.rows, s.log),
         ran := set x | x in s.ran && !Interrupted(s.rows, x.0, x.1))
  }

  /** The second check, on the row as it is once the gate is held. */
  predicate Starts(s: State)
    requires s.pass.AtGate?
  {
    var p := s.pass.project;
    p in s.rows && s.rows[p].enabled && s.rows[p].last != Some(s.pass.today)
  }

  /** The earliest date the next start can have. */
  function Horizon(s: State): Date
  {
    if s.pass.Asleep? then s.date else s.pass.today
  }

  ghost predicate Ran(log: seq<Start>, p: Project, date: Date)
  {
    exists x | x in log :: x.project == p && x.date == date
  }

  predicate Reached(last: Option<Date>, date: Date)
  {
    last.Some? && last.value >= date
  }

  predicate Within(last: Option<Date>, date: Date)
  {
    last.Some? ==> last.value <= date
  }

  function Pending(pass: Pass): Rows
  {
    if pass.Asleep? || pass.Ticked? then map[] else pass.pending
  }

  ghost predicate Clock(s: State)
  {
    Horizon(s) <= s.date && forall x | x in s.log :: x.date <= Horizon(s) && x.minute >= x.due
  }

  ghost predicate LastDates(s: State)
  {
    && (forall p | p in s.rows :: Within(s.rows[p].last, s.date))
    && (forall p | Ran(s.log, p, Horizon(s)) :: p in s.rows && Reached(s.rows[p].last, Horizon(s)))
  }

  ghost predicate Listed(s: State)
  {
    && (forall p | p in Pending(s.pass) && Ran(s.log, p, Horizon(s)) :: Reached(Pending(s.pass)[p].last, Horizon(s)))
    && (s.pass.AtGate? ==>
          && s.pass.project !in s.pass.pending && s.pass.minute >= s.pass.due && s.pass.listed != Some(s.pass.today)
          && (Ran(s.log, s.pass.project, s.pass.today) ==> Reached(s.pass.listed, s.pass.today)))
    && (s.pass.BackingUp? ==> s.pass.project in s.held && s.pass.project !in s.manual && s.pass.project !in s.pass.pending)
  }

  ghost predicate Manual(s: State)
  {
    forall p | p in s.manual ::
      p in s.held && s.manual[p] <= s.date && (Ran(s.log, p, Horizon(s)) ==> s.manual[p] >= Horizon(s))
  }

  ghost predicate Inv(s: State)
  {
    Clock(s) && LastDates(s) && Listed(s) && Manual(s)
  }

  lemma {:induction false} UninterruptedKeeps(rows: Rows, log: seq<Start>)
    ensures forall x :: x in Uninterrupted(rows, log) <==> x in log && !Interrupted(rows, x.project, x.date)
  {
    if log != [] {
      UninterruptedKeeps(rows, log[1..]);
    }
  }

  lemma RanGrows(log: seq<Start>, x: Start)
    ensures forall p, date :: Ran(log + [x], p, date) <==> Ran(log, p, date) || (p == x.project && date == x.date)
  {
    assert x in log + [x];
    forall p, date ensures Ran(log + [x], p, date) <==> Ran(log, p, date) || (p == x.project && date == x.date) {
      if Ran(log, p, date) {
        var y :| y in log && y.project == p && y.date == date;
        assert y in log + [x];
      }
    }
  }

  lemma NothingAhead(s: State)
    requires Clock(s)
    ensures forall p, date | date > Horizon(s) :: !Ran(s.log, p, date)
  {
  }

  lemma EnterGateKeepsInv(s: State)
    requires Inv(s) && Enabled(s, EnterGate)
    ensures Inv(Next(s, EnterGate))
  {
    var next := Next(s, EnterGate);
    if Starts(s) {
      var x := Start(s.pass.project, s.pass.today, s.pass.minute, s.pass.due);
      RanGrows(s.log, x);
    }
  }

  lemma RestartKeepsInv(s: State)
    requires Inv(s)
    ensures Inv(Next(s, Restart))
  {
    var next := Next(s, Restart);
    UninterruptedKeeps(s.rows, s.log);
    forall p | Ran(next.log, p, s.date) ensures p in next.rows && Reached(next.rows[p].last, s.date) {
      var x :| x in next.log && x.project == p && x.date == s.date;
      assert x in s.log && !Interrupted(s.rows, x.project, x.date);
      assert Ran(s.log, p, s.date);
    }
  }

  lemma PassKeepsInv(s: State, e: Event)
    requires Inv(s) && Enabled(s, e)
    requires e.Tick? || e.ReadList? || e.Consider? || e.Finish? || e.EndPass?
    ensures Inv(Next(s, e))
  {
    NothingAhead(s);
  }

  lemma OthersKeepInv(s: State, e: Event)
    requires Inv(s) && Enabled(s, e)
    requires e.Advance? || e.SaveSchedule? || e.ManualEnter? || e.ManualStart? || e.ManualFinish?
    ensures Inv(Next(s, e))
  {
    NothingAhead(s);
  }

  lemma StepKeepsInv(s: State, e: Event)
    requires Inv(s) && Enabled(s, e)
    ensures Inv(Next(s, e))
  {
    match e
    case Restart => RestartKeepsInv(s);
    case EnterGate => EnterGateKeepsInv(s);
    case Tick => PassKeepsInv(s, e);
    case ReadList => PassKeepsInv(s, e);
    case Consider(_) => PassKeepsInv(s, e);
    case Finish(_) => PassKeepsInv(s, e);
    case EndPass => PassKeepsInv(s, e);
    case _ => OthersKeepInv(s, e);
  }

  /** A start repeats a project and date only if the row it had listed was dated later than its tick, which takes a
      manual run between reading the clock and reading the list, past midnight. */
  lemma RepeatNeedsLaterRun(s: State)
    requires Inv(s) && Enabled(s, EnterGate) && Starts(s)
    requires Ran(s.log, s.pass.project, s.pass.today)
    ensures s.pass.listed.Some? && s.pass.listed.value > s.pass.today
  {
  }

  /** No date is started twice. */
  ghost predicate Once(log: seq<Start>)
  {
    forall i, j | 0 <= i < j < |log| :: log[i].project != log[j].project || log[i].date != log[j].date
  }

  /** What was listed is not dated later than the tick. */
  ghost predicate Current(s: State)
  {
    && (forall p | p in Pending(s.pass) :: Within(Pending(s.pass)[p].last, Horizon(s)))
    && (s.pass.AtGate? ==> Within(s.pass.listed, s.pass.today))
  }

  /** The list is read on the day the clock was read. */
  predicate Prompt(s: State, e: Event)
  {
    e.ReadList? ==> s.date == Horizon(s)
  }

  lemma OnceGrows(log: seq<Start>, x: Start)
    requires Once(log) && !Ran(log, x.project, x.date)
    ensures Once(log + [x])
  {
    forall i, j | 0 <= i < j < |log| + 1
      ensures (log + [x])[i].project != (log + [x])[j].project || (log + [x])[i].date != (log + [x])[j].date
    {
      assert log[i] in log;
    }
  }

  lemma {:induction false} OnceRemains(rows: Rows, log: seq<Start>)
    requires Once(log)
    ensures Once(Uninterrupted(rows, log))
  {
    if log != [] {
      var rest := Uninterrupted(rows, log[1..]);
      OnceRemains(rows, log[1..]);
      UninterruptedKeeps(rows, log[1..]);
      forall j | 0 <= j < |rest| ensures rest[j].project != log[0].project || rest[j].date != log[0].date {
        assert rest[j] in log[1..];
      }
    }
  }

  lemma StepKeepsCurrent(s: State, e: Event)
    requires LastDates(s) && Current(s) && Enabled(s, e) && Prompt(s, e)
    ensures Current(Next(s, e))
  {
    var next := Next(s, e);
    forall p | p in Pending(next.pass) ensures Within(Pending(next.pass)[p].last, Horizon(next)) {
      if e.ReadList? {
        assert Pending(next.pass)[p] == s.rows[p];
      } else {
        assert p in Pending(s.pass) && Pending(next.pass)[p] == Pending(s.pass)[p];
      }
    }
    if e.Consider? {
      assert e.p in Pending(s.pass);
    }
  }

  lemma StepKeepsOnce(s: State, e: Event)
    requires Inv(s) && Current(s) && Once(s.log) && Enabled(s, e)
    ensures Once(Next(s, e).log)
  {
    if e.EnterGate? && Starts(s) {
      if Ran(s.log, s.pass.project, s.pass.today) {
        RepeatNeedsLaterRun(s);
        assert false;
      }
      OnceGrows(s.log, Start(s.pass.project, s.pass.today, s.pass.minute, s.pass.due));
    }
    OnceRemains(s.rows, s.log);
  }

  ghost predicate AllEnabled(s: State, events: seq<Event>)
    decreases |events|
  {
    events != [] ==> Enabled(s, events[0]) && AllEnabled(Next(s, events[0]), events[1..])
  }

  ghost predicate AllPrompt(s: State, events: seq<Event>)
    requires AllEnabled(s, events)
    decreases |events|
  {
    events != [] ==> Prompt(s, events[0]) && AllPrompt(Next(s, events[0]), events[1..])
  }

  ghost function Run(s: State, events: seq<Event>): State
    requires AllEnabled(s, events)
    decreases |events|
  {
    if events == [] then s else Run(Next(s, events[0]), events[1..])
  }

  lemma {:induction false} RunKeepsInv(s: State, events: seq<Event>)
    requires Inv(s) && AllEnabled(s, events)
    ensures Inv(Run(s, events))
    ensures Current(s) && Once(s.log) && AllPrompt(s, events) ==> Once(Run(s, events).log)
    decreases |events|
  {
    if events != [] {
      StepKeepsInv(s, events[0]);
      if Current(s) && Once(s.log) && AllPrompt(s, events) {
        StepKeepsCurrent(s, events[0]);
        StepKeepsOnce(s, events[0]);
      }
      RunKeepsInv(Next(s, events[0]), events[1..]);
    }
  }

  /** Where a run begins: no run is under way and no row is dated in the future. */
  predicate Fresh(s: State)
  {
    s.pass.Asleep? && s.held == {} && s.manual == map[] && s.log == [] && s.ran == {} && forall p | p in s.rows :: Within(s.rows[p].last, s.date)
  }

  /** Over any run: a backup starts no earlier than it is due by the clock reading of its tick, and, if every list
      is read on the day of its tick, no project is started twice for one date, except to redo a start that a
      restart interrupted. */
  lemma AnyRun(s: State, events: seq<Event>)
    requires Fresh(s) && AllEnabled(s, events)
    ensures var log := Run(s, events).log;
      && (forall x | x in log :: x.minute >= x.due)
      && (AllPrompt(s, events) ==> Once(log))
  {
    RunKeepsInv(s, events);
  }

  /** A restart changes the dates of exactly the rows left running and drops from the log only what they ran. */
  lemma RestartRecovers(s: State)
    ensures var after := Next(s, Restart);
      && after.rows.Keys == s.rows.Keys
      && (forall p | p in s.rows :: after.rows[p].last == if s.rows[p].status.Running? then None else s.rows[p].last)
      && (forall p | p in s.rows :: after.rows[p].status == if s.rows[p].status.Running? then Failed else s.rows[p].status)
      && (forall p | p in s.rows :: after.rows[p].enabled == s.rows[p].enabled && after.rows[p].time == s.rows[p].time)
      && (forall x :: x in after.log <==> x in s.log && !Interrupted(s.rows, x.project, x.date))
  {
    UninterruptedKeeps(s.rows, s.log);
  }

  /** The first pass after a restart, up to the check of one project. */
  function PassAfterRestart(s: State, p: Project): State
    requires p in s.rows && s.rows[p].enabled
  {
    Next(Next(Next(Next(s, Restart), Tick), ReadList), Consider(p))
  }

  /** That pass starts a project that is past its time exactly if its run was interrupted or it has none of that day. */
  lemma RestartRedoes(s: State, p: Project)
    requires p in s.rows && s.rows[p].enabled && s.rows[p].time.Some? && s.minute >= s.rows[p].time.value
    ensures var now := PassAfterRestart(s, p);
      && (now.pass.AtGate? <==> s.rows[p].status.Running? || s.rows[p].last != Some(s.date))
      && (now.pass.AtGate? ==> Enabled(now, EnterGate) && Starts(now) && Next(now, EnterGate).rows[p].last == Some(s.date))
  {
    var listed := Next(Next(Next(s, Restart), Tick), ReadList);
    assert p in listed.pass.pending && listed.pass.pending[p] == Recover(s.rows)[p];
  }

  // ----- the second check

  /** A pass enters the gate on the day its clock was read. */
  predicate SameDay(s: State, e: Event)
  {
    e.EnterGate? ==> s.date == Horizon(s)
  }

  ghost predicate AllSameDay(s: State, events: seq<Event>)
    requires AllEnabled(s, events)
    decreases |events|
  {
    events != [] ==> SameDay(s, events[0]) && AllSameDay(Next(s, events[0]), events[1..])
  }

  /** Every backup of today, by the scheduler or by hand, shows in its row. */
  ghost predicate Shown(s: State)
  {
    && (forall x | x in s.ran :: x.1 <= s.date && (x.1 == s.date ==> x.0 in s.rows && s.rows[x.0].last == Some(s.date)))
    && (forall p | p in s.manual :: s.manual[p] <= s.date && forall x | x in s.ran && x.0 == p :: x.1 <= s.manual[p])
    && (forall p | p in s.manual :: p in s.held)
    && (s.pass.BackingUp? ==> s.pass.project in s.held && s.pass.project !in s.manual)
  }

  lemma StepKeepsShown(s: State, e: Event)
    requires Shown(s) && Enabled(s, e) && SameDay(s, e)
    ensures Shown(Next(s, e))
  {
  }

  lemma {:induction false} RunKeepsShown(s: State, events: seq<Event>)
    requires Shown(s) && AllEnabled(s, events) && AllSameDay(s, events)
    ensures Shown(Run(s, events))
    decreases |events|
  {
    if events != [] {
      StepKeepsShown(s, events[0]);
      RunKeepsShown(Next(s, events[0]), events[1..]);
    }
  }

  /** In any run whose passes do not straddle midnight, the check at the gate starts no backup for a date that has one
      already, be it by hand and since the list was read. */
  lemma GateCheckSuffices(s: State, events: seq<Event>)
    requires Fresh(s) && AllEnabled(s, events) && AllSameDay(s, events)
    ensures var now := Run(s, events);
      Enabled(now, EnterGate) && now.date == now.pass.today && Starts(now) ==> (now.pass.project, now.date) !in now.ran
  {
    RunKeepsShown(s, events);
  }

  // ----- what goes wrong around midnight

  ghost predicate Leads(s: State, t: State)
  {
    exists events :: AllEnabled(s, events) && Run(s, events) == t
  }

  lemma LeadsSelf(s: State)
    ensures Leads(s, s)
  {
    assert AllEnabled(s, []) && Run(s, []) == s;
  }

  lemma LeadsFrom(s: State, e: Event, t: State)
    requires Enabled(s, e) && Leads(Next(s, e), t)
    ensures Leads(s, t)
  {
    var events :| AllEnabled(Next(s, e), events) && Run(Next(s, e), events) == t;
    var all := [e] + events;
    assert all[1..] == events;
    assert AllEnabled(s, all) && Run(s, all) == t;
  }

  lemma {:induction false} LeadsAlong(s: State, events: seq<Event>, t: State)
    requires AllEnabled(s, events) && Leads(Run(s, events), t)
    ensures Leads(s, t)
    decreases |events|
  {
    if events != [] {
      LeadsAlong(Next(s, events[0]), events[1..], t);
      LeadsFrom(s, events[0], t);
    }
  }

  lemma LeadsOn(s: State, t: State, u: State)
    requires Leads(s, t) && Leads(t, u)
    ensures Leads(s, u)
  {
    var events :| AllEnabled(s, events) && Run(s, events) == t;
    LeadsAlong(s, events, u);
  }

  /** One project, and no run under way. */
  function Alone(p: Project, row: Row, date: Date, pass: Pass, log: seq<Start>, ran: set<(Project, Date)>): State
  {
    State(date, 0, map[p := row], pass, {}, map[], log, ran)
  }

  function AtItsGate(p: Project, row: Row, date: Date, today: Date, listed: Option<Date>, log: seq<Start>, ran: set<(Project, Date)>): State
  {
    Alone(p, row, date, AtGate(today, 0, p, 0, listed, map[]), log, ran)
  }

  function Done(row: Row, date: Date): Row
  {
    row.(last := Some(date), status := Success)
  }

  /** The list is read and the project found due. */
  lemma ComesToGate(p: Project, row: Row, date: Date, today: Date, log: seq<Start>, ran: set<(Project, Date)>)
    requires row.enabled && row.time == Some(0) && row.last != Some(today)
    ensures Leads(Alone(p, row, date, Ticked(today, 0), log, ran), AtItsGate(p, row, date, today, row.last, log, ran))
  {
    var ticked := Alone(p, row, date, Ticked(today, 0), log, ran);
    var listed := Next(ticked, ReadList);
    assert ListEnabled(ticked.rows) == ticked.rows;
    assert listed.pass.pending - {p} == map[];
    var gate := Next(listed, Consider(p));
    LeadsSelf(gate);
    LeadsFrom(listed, Consider(p), gate);
    LeadsFrom(ticked, ReadList, gate);
  }

  /** The rest of the pass. */
  lemma PassGoesThrough(p: Project, row: Row, date: Date, today: Date, listed: Option<Date>, log: seq<Start>, ran: set<(Project, Date)>)
    requires row.enabled && row.last != Some(today)
    ensures Leads(AtItsGate(p, row, date, today, listed, log, ran),
                  Alone(p, Done(row, today), date, Asleep, log + [Start(p, today, 0, 0)], ran + {(p, today)}))
  {
    var gate := AtItsGate(p, row, date, today, listed, log, ran);
    var busy := Next(gate, EnterGate);
    assert busy.held == {p};
    var done := Next(busy, Finish(true));
    assert done.held == {} && done.rows == map[p := Done(row, today)];
    var end := Next(done, EndPass);
    LeadsSelf(end);
    LeadsFrom(done, EndPass, end);
    LeadsFrom(busy, Finish(true), end);
    LeadsFrom(gate, EnterGate, end);
  }

  lemma TickLeads(p: Project, row: Row, date: Date, log: seq<Start>, ran: set<(Project, Date)>)
    ensures Leads(Alone(p, row, date, Asleep, log, ran), Alone(p, row, date, Ticked(date, 0), log, ran))
  {
    var s := Alone(p, row, date, Asleep, log, ran);
    LeadsSelf(Next(s, Tick));
    LeadsFrom(s, Tick, Next(s, Tick));
  }

  /** Midnight passes and a manual run completes while the scheduler stands where it is. */
  lemma ManualNextDay(p: Project, row: Row, pass: Pass, log: seq<Start>, ran: set<(Project, Date)>)
    requires !pass.BackingUp?
    ensures Leads(Alone(p, row, 1, pass, log, ran), Alone(p, Done(row, 2), 2, pass, log, ran + {(p, 2)}))
  {
    var s := Alone(p, row, 1, pass, log, ran);
    var later := Next(s, Advance(2, 0));
    var entered := Next(later, ManualEnter(p));
    assert entered.held == {p} && entered.manual == map[p := 2];
    var started := Next(entered, ManualStart(p));
    assert started.manual == map[];
    var finished := Next(started, ManualFinish(p, true));
    assert finished.held == {} && finished.rows == map[p := Done(row, 2)];
    LeadsSelf(finished);
    LeadsFrom(started, ManualFinish(p, true), finished);
    LeadsFrom(entered, ManualStart(p), finished);
    LeadsFrom(later, ManualEnter(p), finished);
    LeadsFrom(s, Advance(2, 0), finished);
  }

  /** Without its proviso AnyRun is false: the second pass of day 1 reads the clock, midnight passes, a manual run of
      day 2 completes, and the list then read shows a date that is not day 1; day 1 is started twice. */
  lemma MidnightRepeats(p: Project)
    ensures exists s: State, t: State :: Fresh(s) && Leads(s, t) && !Once(t.log)
  {
    var row := Row(true, Some(0), None, Idle);
    var x := Start(p, 1, 0, 0);
    var first, manual := Done(row, 1), Done(Done(row, 1), 2);
    var r0, r1, r2 := {}, {} + {(p, 1)}, {} + {(p, 1)} + {(p, 2)};
    var l1, l2 := [] + [x], [] + [x] + [x];
    TickLeads(p, row, 1, [], r0);
    ComesToGate(p, row, 1, 1, [], r0);
    PassGoesThrough(p, row, 1, 1, None, [], r0);
    TickLeads(p, first, 1, l1, r1);
    ManualNextDay(p, first, Ticked(1, 0), l1, r1);
    ComesToGate(p, manual, 2, 1, l1, r2);
    PassGoesThrough(p, manual, 2, 1, Some(2), l1, r2);
    var s, t := Alone(p, row, 1, Asleep, [], r0), Alone(p, Done(manual, 1), 2, Asleep, l2, r2 + {(p, 1)});
    LeadsOn(Alone(p, manual, 2, Ticked(1, 0), l1, r2), AtItsGate(p, manual, 2, 1, Some(2), l1, r2), t);
    LeadsOn(Alone(p, first, 1, Ticked(1, 0), l1, r1), Alone(p, manual, 2, Ticked(1, 0), l1, r2), t);
    LeadsOn(Alone(p, first, 1, Asleep, l1, r1), Alone(p, first, 1, Ticked(1, 0), l1, r1), t);
    LeadsOn(AtItsGate(p, row, 1, 1, None, [], r0), Alone(p, first, 1, Asleep, l1, r1), t);
    LeadsOn(Alone(p, row, 1, Ticked(1, 0), [], r0), AtItsGate(p, row, 1, 1, None, [], r0), t);
    LeadsOn(s, Alone(p, row, 1, Ticked(1, 0), [], r0), t);
    assert t.log[0] == t.log[1];
  }

  /** GateCheckSuffices needs its proviso too: a manual run of day 2 completes while the pass of day 1 waits for the
      gate; that pass then writes day 1 over day 2, and the next one starts day 2 again. */
  lemma StraddlingRepeats(p: Project)
    ensures exists s: State, now: State ::
      && Fresh(s) && Leads(s, now)
      && Enabled(now, EnterGate) && now.date == now.pass.today && Starts(now) && (now.pass.project, now.date) in now.ran
  {
    var row := Row(true, Some(0), None, Idle);
    var manual, late := Done(row, 2), Done(Done(row, 2), 1);
    var r0, r1, r2 := {}, {} + {(p, 2)}, {} + {(p, 2)} + {(p, 1)};
    var l1 := [] + [Start(p, 1, 0, 0)];
    var gate := AtGate(1, 0, p, 0, None, map[]);
    TickLeads(p, row, 1, [], r0);
    ComesToGate(p, row, 1, 1, [], r0);
    ManualNextDay(p, row, gate, [], r0);
    PassGoesThrough(p, manual, 2, 1, None, [], r1);
    TickLeads(p, late, 2, l1, r2);
    ComesToGate(p, late, 2, 2, l1, r2);
    var s, now := Alone(p, row, 1, Asleep, [], r0), AtItsGate(p, late, 2, 2, Some(1), l1, r2);
    LeadsOn(Alone(p, late, 2, Asleep, l1, r2), Alone(p, late, 2, Ticked(2, 0), l1, r2), now);
    LeadsOn(Alone(p, manual, 2, gate, [], r1), Alone(p, late, 2, Asleep, l1, r2), now);
    LeadsOn(Alone(p, row, 1, gate, [], r0), Alone(p, manual, 2, gate, [], r1), now);
    LeadsOn(Alone(p, row, 1, Ticked(1, 0), [], r0), Alone(p, row, 1, gate, [], r0), now);
    LeadsOn(s, Alone(p, row, 1, Ticked(1, 0), [], r0), now);
  }
}
