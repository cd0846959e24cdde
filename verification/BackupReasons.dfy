/** Why the scheduler starts a backup, told from the events of a run (src/dbbackup.rs:780-795, 944-1025). */
module BackupReasons {
  import opened Text
  import opened BackupSchedule

  lemma {:induction false} RunSnoc(s: State, events: seq<Event>, e: Event)
    ensures AllEnabled(s, events + [e]) <==> AllEnabled(s, events) && Enabled(Run(s, events), e)
    ensures AllEnabled(s, events + [e]) ==> Run(s, events + [e]) == Next(Run(s, events), e)
    decreases |events|
  {
    var more := events + [e];
    if events == [] {
      assert more == [e] && more[1..] == [];
    } else {
      assert more[0] == events[0] && more[1..] == events[1..] + [e];
      if Enabled(s, events[0]) {
        RunSnoc(Next(s, events[0]), events[1..], e);
      }
    }
  }

  /** The state in which event number `k` of a run found things. */
  ghost predicate Found(s: State, events: seq<Event>, k: nat, at: State)
  {
    k < |events| && AllEnabled(s, events[..k]) && at == Run(s, events[..k])
  }

  /** A tick at which the clock showed this. */
  ghost predicate ClockRead(s: State, events: seq<Event>, date: Date, minute: Minute)
  {
    exists k: nat, at: State :: Found(s, events, k, at) && events[k].Tick? && at.date == date && at.minute == minute
  }

  /** The project's schedule was switched on and looked like this when the pass of that tick read its list. */
  ghost predicate WasListed(s: State, events: seq<Event>, p: Project, today: Date, minute: Minute, row: Row)
  {
    exists k: nat, at: State :: Found(s, events, k, at) && events[k].ReadList? && at.pass == Ticked(today, minute)
      && p in at.rows && at.rows[p] == row && row.enabled
  }

  /** And it was still on, and not yet dated that day, when the pass held the gate, which nobody else did. */
  ghost predicate WasChecked(s: State, events: seq<Event>, p: Project, today: Date)
  {
    exists k: nat, at: State :: Found(s, events, k, at) && events[k].EnterGate? && at.pass.AtGate? && at.pass.project == p
      && p !in at.held && p in at.rows && at.rows[p].enabled && at.rows[p].last != Some(today)
  }

  /** Due by that row on that day: its time is past and it is not dated that day. */
  ghost predicate DueAsListed(s: State, events: seq<Event>, p: Project, today: Date, minute: Minute, due: Minute, last: Option<Date>)
  {
    exists row :: WasListed(s, events, p, today, minute, row)
      && row.time == Some(due) && row.last == last && last != Some(today) && minute >= due
  }

  ghost predicate Justified(s: State, events: seq<Event>, x: Start)
  {
    && ClockRead(s, events, x.date, x.minute)
    && (exists last :: DueAsListed(s, events, x.project, x.date, x.minute, x.due, last))
    && WasChecked(s, events, x.project, x.date)
  }

  /** What is known of a state that a run has come to. */
  ghost predicate Reasons(s: State, events: seq<Event>, now: State)
  {
    && (!now.pass.Asleep? ==> ClockRead(s, events, now.pass.today, now.pass.minute))
    && (forall p | p in Pending(now.pass) :: WasListed(s, events, p, now.pass.today, now.pass.minute, Pending(now.pass)[p]))
    && (now.pass.AtGate? ==>
          DueAsListed(s, events, now.pass.project, now.pass.today, now.pass.minute, now.pass.due, now.pass.listed))
    && (forall x | x in now.log :: Justified(s, events, x))
  }

  lemma FoundLater(s: State, events: seq<Event>, e: Event, k: nat, at: State)
    requires Found(s, events, k, at)
    ensures Found(s, events + [e], k, at) && (events + [e])[k] == events[k]
  {
    assert (events + [e])[..k] == events[..k];
  }

  lemma ListedLater(s: State, events: seq<Event>, e: Event, p: Project, today: Date, minute: Minute, row: Row)
    requires WasListed(s, events, p, today, minute, row)
    ensures WasListed(s, events + [e], p, today, minute, row)
  {
    var k: nat, at: State :| Found(s, events, k, at) && events[k].ReadList? && at.pass == Ticked(today, minute)
      && p in at.rows && at.rows[p] == row && row.enabled;
    FoundLater(s, events, e, k, at);
  }

  lemma DueLater(s: State, events: seq<Event>, e: Event, p: Project, today: Date, minute: Minute, due: Minute, last: Option<Date>)
    requires DueAsListed(s, events, p, today, minute, due, last)
    ensures DueAsListed(s, events + [e], p, today, minute, due, last)
  {
    var row :| WasListed(s, events, p, today, minute, row)
      && row.time == Some(due) && row.last == last && last != Some(today) && minute >= due;
    ListedLater(s, events, e, p, today, minute, row);
  }

  lemma ReadLater(s: State, events: seq<Event>, e: Event, date: Date, minute: Minute)
    requires ClockRead(s, events, date, minute)
    ensures ClockRead(s, events + [e], date, minute)
  {
    var k: nat, at: State :| Found(s, events, k, at) && events[k].Tick? && at.date == date && at.minute == minute;
    FoundLater(s, events, e, k, at);
  }

  lemma CheckedLater(s: State, events: seq<Event>, e: Event, p: Project, today: Date)
    requires WasChecked(s, events, p, today)
    ensures WasChecked(s, events + [e], p, today)
  {
    var k: nat, at: State :| Found(s, events, k, at) && events[k].EnterGate? && at.pass.AtGate? && at.pass.project == p
      && p !in at.held && p in at.rows && at.rows[p].enabled && at.rows[p].last != Some(today);
    FoundLater(s, events, e, k, at);
  }

  lemma JustifiedLater(s: State, events: seq<Event>, e: Event, x: Start)
    requires Justified(s, events, x)
    ensures Justified(s, events + [e], x)
  {
    ReadLater(s, events, e, x.date, x.minute);
    var last :| DueAsListed(s, events, x.project, x.date, x.minute, x.due, last);
    DueLater(s, events, e, x.project, x.date, x.minute, x.due, last);
    CheckedLater(s, events, e, x.project, x.date);
  }

  lemma NowFound(s: State, events: seq<Event>, e: Event)
    requires AllEnabled(s, events)
    ensures Found(s, events + [e], |events|, Run(s, events)) && (events + [e])[|events|] == e
  {
    assert (events + [e])[..|events|] == events;
  }

  /** All that was known stays known. */
  lemma ReasonsStay(s: State, events: seq<Event>, e: Event, now: State)
    requires Reasons(s, events, now)
    ensures Reasons(s, events + [e], now)
  {
    if !now.pass.Asleep? {
      ReadLater(s, events, e, now.pass.today, now.pass.minute);
    }
    forall p | p in Pending(now.pass)
      ensures WasListed(s, events + [e], p, now.pass.today, now.pass.minute, Pending(now.pass)[p])
    {
      ListedLater(s, events, e, p, now.pass.today, now.pass.minute, Pending(now.pass)[p]);
    }
    if now.pass.AtGate? {
      DueLater(s, events, e, now.pass.project, now.pass.today, now.pass.minute, now.pass.due, now.pass.listed);
    }
    forall x | x in now.log ensures Justified(s, events + [e], x) {
      JustifiedLater(s, events, e, x);
    }
  }

  lemma ListGivesReasons(s: State, events: seq<Event>, now: State)
    requires AllEnabled(s, events) && now == Run(s, events) && Enabled(now, ReadList) && Reasons(s, events + [ReadList], now)
    ensures Reasons(s, events + [ReadList], Next(now, ReadList))
  {
    NowFound(s, events, ReadList);
    var next := Next(now, ReadList);
    forall p | p in Pending(next.pass)
      ensures WasListed(s, events + [ReadList], p, next.pass.today, next.pass.minute, Pending(next.pass)[p])
    {
      assert p in now.rows && now.rows[p] == Pending(next.pass)[p] && now.rows[p].enabled;
    }
  }

  lemma GateGivesReasons(s: State, events: seq<Event>, now: State)
    requires AllEnabled(s, events) && now == Run(s, events) && Enabled(now, EnterGate) && Reasons(s, events + [EnterGate], now)
    ensures Reasons(s, events + [EnterGate], Next(now, EnterGate))
  {
    assert Pending(Next(now, EnterGate).pass) == Pending(now.pass);
    if Starts(now) {
      StartIsJustified(s, events, now);
    }
  }

  lemma StartIsJustified(s: State, events: seq<Event>, now: State)
    requires AllEnabled(s, events) && now == Run(s, events) && Enabled(now, EnterGate) && Starts(now)
    requires ClockRead(s, events + [EnterGate], now.pass.today, now.pass.minute)
    requires DueAsListed(s, events + [EnterGate], now.pass.project, now.pass.today, now.pass.minute, now.pass.due, now.pass.listed)
    ensures Justified(s, events + [EnterGate], Start(now.pass.project, now.pass.today, now.pass.minute, now.pass.due))
  {
    NowFound(s, events, EnterGate);
    assert WasChecked(s, events + [EnterGate], now.pass.project, now.pass.today);
  }

  lemma ConsiderGivesReasons(s: State, events: seq<Event>, now: State, p: Project)
    requires Enabled(now, Consider(p)) && Reasons(s, events, now)
    ensures Reasons(s, events, Next(now, Consider(p)))
  {
    var next := Next(now, Consider(p));
    assert p in Pending(now.pass);
    var row := now.pass.pending[p];
    if next.pass.AtGate? {
      assert WasListed(s, events, p, now.pass.today, now.pass.minute, row);
    }
    forall q | q in Pending(next.pass) ensures q in Pending(now.pass) && Pending(next.pass)[q] == Pending(now.pass)[q] {
    }
  }

  lemma TickGivesReasons(s: State, events: seq<Event>, now: State)
    requires AllEnabled(s, events) && now == Run(s, events) && Enabled(now, Tick) && Reasons(s, events + [Tick], now)
    ensures Reasons(s, events + [Tick], Next(now, Tick))
  {
    NowFound(s, events, Tick);
  }

  lemma RestartGivesReasons(s: State, events: seq<Event>, now: State)
    requires Reasons(s, events, now)
    ensures Reasons(s, events, Next(now, Restart))
  {
    UninterruptedKeeps(now.rows, now.log);
  }

  lemma OthersGiveReasons(s: State, events: seq<Event>, now: State, e: Event)
    requires Enabled(now, e) && Reasons(s, events, now)
    requires !e.Tick? && !e.ReadList? && !e.Consider? && !e.EnterGate? && !e.Restart?
    ensures Reasons(s, events, Next(now, e))
  {
    var next := Next(now, e);
    assert next.log == now.log;
    assert Pending(next.pass) == Pending(now.pass) || Pending(next.pass) == map[];
  }

  lemma {:induction false} RunGivesReasons(s: State, events: seq<Event>)
    requires Fresh(s) && AllEnabled(s, events)
    ensures Reasons(s, events, Run(s, events))
    decreases |events|
  {
    if events != [] {
      var before, e := Init(events), Last(events);
      assert events == before + [e];
      RunSnoc(s, before, e);
      RunGivesReasons(s, before);
      var now := Run(s, before);
      ReasonsStay(s, before, e, now);
      match e
      case Tick => TickGivesReasons(s, before, now);
      case ReadList => ListGivesReasons(s, before, now);
      case Consider(p) => ConsiderGivesReasons(s, events, now, p);
      case EnterGate => GateGivesReasons(s, before, now);
      case Restart => RestartGivesReasons(s, events, now);
      case _ => OthersGiveReasons(s, events, now, e);
    }
  }

  /** Every backup the scheduler starts in a run has its reasons: the clock was read at its date and minute; the list read
      then showed its schedule switched on, past its time and not dated that day; and when the gate was entered it was
      still on and not dated that day. */
  lemma StartsAreJustified(s: State, events: seq<Event>)
    requires Fresh(s) && AllEnabled(s, events)
    ensures forall x | x in Run(s, events).log :: Justified(s, events, x)
  {
    RunGivesReasons(s, events);
  }

  /** Nor does it pass over one: the list has every schedule that is on, a listed row that is due comes to the gate, and
      there the backup starts unless the schedule is off by then or dated that day. */
  lemma NothingIsPassedOver(s: State, p: Project)
    ensures Enabled(s, ReadList) ==> forall q | q in s.rows && s.rows[q].enabled ::
      q in Pending(Next(s, ReadList).pass) && Pending(Next(s, ReadList).pass)[q] == s.rows[q]
    ensures Enabled(s, Consider(p)) && s.pass.pending[p].time.Some? && s.pass.pending[p].last != Some(s.pass.today)
              && s.pass.minute >= s.pass.pending[p].time.value ==>
              Next(s, Consider(p)).pass.AtGate? && Next(s, Consider(p)).pass.project == p
    ensures Enabled(s, EnterGate) && s.pass.project in s.rows && s.rows[s.pass.project].enabled
              && s.rows[s.pass.project].last != Some(s.pass.today) ==>
              && Next(s, EnterGate).pass.BackingUp? && |Next(s, EnterGate).log| == |s.log| + 1
              && Next(s, EnterGate).rows[s.pass.project].last == Some(s.pass.today)
  {
  }

  /** Saving a schedule sets what is given and leaves alone what runs have recorded, and all other rows. */
  lemma SavingKeepsRecord(s: State, p: Project, enabled: bool, time: Option<Minute>)
    ensures var after := Next(s, SaveSchedule(p, enabled, time));
      && p in after.rows && after.rows[p].enabled == enabled && after.rows[p].time == time
      && (p in s.rows ==> after.rows[p].last == s.rows[p].last && after.rows[p].status == s.rows[p].status)
      && (p !in s.rows ==> after.rows[p].last == None && after.rows[p].status == Idle)
      && (forall q | q != p :: (q in after.rows <==> q in s.rows) && (q in s.rows ==> after.rows[q] == s.rows[q]))
      && after.(rows := s.rows) == s
  {
  }

  /** A manual run is dated with the day on which it entered the gate, whenever it then writes its row, and no other
      project's row is touched. */
  lemma ManualRunIsDated(s: State, p: Project)
    ensures Enabled(s, ManualEnter(p)) ==>
      var entered := Next(s, ManualEnter(p)); p in entered.held && p in entered.manual && entered.manual[p] == s.date && entered.rows == s.rows
    ensures Enabled(s, ManualStart(p)) ==>
      var started := Next(s, ManualStart(p));
      && started.rows[p].last == Some(s.manual[p]) && started.rows[p].status.Running? && (p, s.manual[p]) in started.ran
      && forall q | q in s.rows && q != p :: q in started.rows && started.rows[q] == s.rows[q]
  {
  }

  /** The end of a run is recorded with its outcome, and its date stays. */
  lemma FinishTells(s: State, ok: bool)
    requires Enabled(s, Finish(ok)) && s.pass.project in s.rows
    ensures var before, after := s.rows[s.pass.project], Next(s, Finish(ok)).rows[s.pass.project];
      && (after.status.Success? <==> ok) && (after.status.Failed? <==> !ok)
      && after.last == before.last && after.enabled == before.enabled && after.time == before.time
  {
  }

  // ----- what "running" says

  /** A row says "running" exactly while a backup of its project is under way. */
  ghost predicate RunningShows(s: State)
  {
    && (forall p | p in s.rows :: s.rows[p].status.Running? <==> p in s.held && p !in s.manual)
    && (forall p | p in s.held :: p in s.rows)
    && (forall p | p in s.manual :: p in s.held)
    && (s.pass.BackingUp? ==> s.pass.project in s.held && s.pass.project !in s.manual)
  }

  lemma StepKeepsRunning(s: State, e: Event)
    requires RunningShows(s) && Enabled(s, e)
    ensures RunningShows(Next(s, e))
  {
  }

  lemma {:induction false} RunKeepsRunning(s: State, events: seq<Event>)
    requires RunningShows(s) && AllEnabled(s, events)
    ensures RunningShows(Run(s, events))
    decreases |events|
  {
    if events != [] {
      StepKeepsRunning(s, events[0]);
      RunKeepsRunning(Next(s, events[0]), events[1..]);
    }
  }

  /** So a restart finds "running" exactly the backups it interrupts. */
  lemma RunningIsUnderWay(s: State, events: seq<Event>, p: Project)
    requires Fresh(s) && (forall q | q in s.rows :: !s.rows[q].status.Running?) && AllEnabled(s, events)
    ensures var now := Run(s, events);
      && (p in now.rows && now.rows[p].status.Running? <==> p in now.held && p !in now.manual)
      && (now.pass.BackingUp? ==> now.pass.project in now.rows && now.rows[now.pass.project].status.Running?)
  {
    RunKeepsRunning(s, events);
  }
}
