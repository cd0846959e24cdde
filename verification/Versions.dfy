/** The version table of one project and the operations that take turns on it (src/db.rs:241-286;
    src/api.rs:2561-2564, 2750-2754, 2950-2954, 3079-3082, 3262-3271, 3374-3444, 3798-3885, 3927-4007, 4097-4100). */
module Versions {
  import opened Text

  type Id = string
  datatype Row = Row(no: nat, current: bool)
  type Rows = map<Id, Row>

  function Numbers(rows: Rows): set<nat>
  {
    set id | id in rows :: rows[id].no
  }

  /** COALESCE(MAX(version_no), 0). */
  function MaxOf(numbers: set<nat>): (max: nat)
    ensures forall n | n in numbers :: n <= max
    ensures if numbers == {} then max == 0 else max in numbers
  {
    if numbers == {} then 0
    else
      HasMax(numbers);
      var max :| max in numbers && forall n | n in numbers :: n <= max;
      max
  }

  lemma {:induction false} HasMax(numbers: set<nat>)
    requires numbers != {}
    ensures exists max | max in numbers :: forall n | n in numbers :: n <= max
  {
    var one :| one in numbers;
    var rest := numbers - {one};
    if rest == {} {
      assert numbers == {one};
    } else {
      HasMax(rest);
      var max :| max in rest && forall n | n in rest :: n <= max;
      var top := if one < max then max else one;
      assert forall n | n in numbers :: n == one || n in rest;
      assert top in numbers && forall n | n in numbers :: n <= top;
    }
  }

  function NextNo(rows: Rows): nat
  {
    MaxOf(Numbers(rows)) + 1
  }

  /** UNIQUE(project_id, version_no) and the primary key. */
  predicate CanInsert(rows: Rows, id: Id, no: nat)
  {
    id !in rows && no !in Numbers(rows)
  }

  function UnmarkAll(rows: Rows): Rows
  {
    map id | id in rows :: rows[id].(current := false)
  }

  function MarkOne(rows: Rows, id: Id): Rows
  {
    if id in rows then rows[id := rows[id].(current := true)] else rows
  }

  ghost predicate OneCurrent(rows: Rows)
  {
    exists id :: OnlyCurrent(rows, id)
  }

  predicate OnlyCurrent(rows: Rows, id: Id)
  {
    id in rows && rows[id].current && forall other | other in rows && rows[other].current :: other == id
  }

  lemma MarkingLeavesOne(rows: Rows, id: Id)
    requires id in rows
    ensures OneCurrent(MarkOne(UnmarkAll(rows), id)) && MarkOne(UnmarkAll(rows), id)[id].current
  {
    assert OnlyCurrent(MarkOne(UnmarkAll(rows), id), id);
  }

  /** The table as the database module drives it. */
  class VersionTable {
    var rows: Rows

    method NextVersionNo() returns (no: nat)
      ensures no > 0 && no !in Numbers(rows)
      ensures forall n | n in Numbers(rows) :: n < no
      ensures no == 1 || no - 1 in Numbers(rows)
    {
      no := NextNo(rows);
    }

    method InsertVersion(id: Id, no: nat, current: bool) returns (ok: bool)
      modifies this
      ensures ok == CanInsert(old(rows), id, no)
      ensures rows == if ok then old(rows)[id := Row(no, current)] else old(rows)
    {
      ok := CanInsert(rows, id, no);
      if ok {
        rows := rows[id := Row(no, current)];
      }
    }

    /** Two statements: nobody is current, then one is. */
    method MarkCurrent(id: Id)
      modifies this
      ensures rows == MarkOne(UnmarkAll(old(rows)), id)
      ensures id in old(rows) ==> OneCurrent(rows) && rows[id].current
    {
      rows := UnmarkAll(rows);
      if id in rows {
        rows := rows[id := rows[id].(current := true)];
        MarkingLeavesOne(old(rows), id);
      }
    }
  }
}

/** Concurrent requests on one project: every operation that writes versions holds the project gate from before
    it reserves a number until it is finished, and the database lock for every group of statements. */
module VersionProtocol {
  import opened Text
  import opened Versions

  type Process = nat

  datatype Operation =
    | Update(version: Id)                  // publish: the new version becomes current
    | Replace(version: Id)                 // JAR replacement: records a safety version only
    | Rollback(version: Id, target: Id)    // records a safety version, then makes the target current

  datatype Pc =
    | Waiting                 // for the gate
    | Entered                 // holds the gate
    | Reserved(no: nat)       // knows its version number; backups and deployment happen here
    | Recorded                // rollback: safety version stored, restoring
    | Unmarking(target: Id)   // inside the database lock, before the first UPDATE of mark_current
    | Marking(target: Id)     // inside the database lock, between the two UPDATEs
    | Finishing               // only the gate is left to release

  datatype Job = Job(op: Operation, pc: Pc)

  /** What is left of the mark: one current version, none, or several. */
  datatype MarkState = Whole | Lost | Doubled

  /** `mark` is a history variable: only a crash or a failing statement inside the database lock and the next marking
      change it. */
  datatype State = State(rows: Rows, jobs: map<Process, Job>, gate: Option<Process>, lock: Option<Process>, mark: MarkState)

  datatype Event =
    | Begin(p: Process, op: Operation)
    | Enter(p: Process)
    | Reserve(p: Process)
    | Insert(p: Process)
    | StartMark(p: Process)
    | Unmark(p: Process)
    | Mark(p: Process)
    | Fail(p: Process)        // a statement inside the database lock fails, which is released with the gate
    | Leave(p: Process)       // success, or failure at any point outside the database lock, also of getting the gate
    | Crash

  predicate InLock(pc: Pc)
  {
    pc.Unmarking? || pc.Marking?
  }

  predicate NotYetStored(pc: Pc)
  {
    pc.Waiting? || pc.Entered? || pc.Reserved?
  }

  predicate Enabled(s: State, e: Event)
  {
    match e
    case Begin(p, op) =>
      p !in s.jobs && op.version !in s.rows
      && (forall q | q in s.jobs :: s.jobs[q].op.version != op.version)
      && (op.Rollback? ==> op.target in s.rows)
    case Enter(p) => p in s.jobs && s.jobs[p].pc.Waiting? && s.gate.None?
    case Reserve(p) => p in s.jobs && s.jobs[p].pc.Entered? && s.lock.None?
    case Insert(p) => p in s.jobs && s.jobs[p].pc.Reserved? && s.lock.None?
                      && CanInsert(s.rows, s.jobs[p].op.version, s.jobs[p].pc.no)
    case StartMark(p) => p in s.jobs && s.jobs[p].pc.Recorded? && s.jobs[p].op.Rollback? && s.lock.None?
    case Unmark(p) => p in s.jobs && s.jobs[p].pc.Unmarking?
    case Mark(p) => p in s.jobs && s.jobs[p].pc.Marking?
    case Fail(p) => p in s.jobs && InLock(s.jobs[p].pc)
    case Leave(p) => p in s.jobs && !InLock(s.jobs[p].pc)
    case Crash => true
  }

  /** Between the updates nothing is current. Before them nothing has changed yet, except that a publication has
      already inserted its version as current: beside another one, or in the place of a lost one. */
  function MarkLeft(s: State): MarkState
  {
    if s.lock.None? || s.lock.value !in s.jobs then s.mark
    else
      var job := s.jobs[s.lock.value];
      if job.pc.Marking? then Lost
      else if job.pc.Unmarking? && job.op.Update? then (if s.mark.Lost? then Whole else Doubled)
      else s.mark
  }

  function Move(s: State, p: Process, pc: Pc): State
    requires p in s.jobs
  {
    s.(jobs := s.jobs[p := s.jobs[p].(pc := pc)])
  }

  function Next(s: State, e: Event): State
    requires Enabled(s, e)
  {
    match e
    case Begin(p, op) => s.(jobs := s.jobs[p := Job(op, Waiting)])
    case Enter(p) => Move(s, p, Entered).(gate := Some(p))
    case Reserve(p) => Move(s, p, Reserved(NextNo(s.rows)))
    case Insert(p) =>
      var op, no := s.jobs[p].op, s.jobs[p].pc.no;
      (match op
       case Update(version) => Move(s, p, Unmarking(version)).(lock := Some(p), rows := s.rows[version := Row(no, true)])
       case Replace(version) => Move(s, p, Finishing).(rows := s.rows[version := Row(no, false)])
       case Rollback(version, _) => Move(s, p, Recorded).(rows := s.rows[version := Row(no, false)]))
    case StartMark(p) => Move(s, p, Unmarking(s.jobs[p].op.target)).(lock := Some(p))
    case Unmark(p) => Move(s, p, Marking(s.jobs[p].pc.target)).(rows := UnmarkAll(s.rows))
    case Mark(p) => Move(s, p, Finishing).(lock := None, rows := MarkOne(s.rows, s.jobs[p].pc.target), mark := Whole)
    case Fail(p) => s.(jobs := s.jobs - {p}, gate := if s.gate == Some(p) then None else s.gate, lock := None, mark := MarkLeft(s))
    case Leave(p) => s.(jobs := s.jobs - {p}, gate := if s.gate == Some(p) then None else s.gate)
    case Crash => State(s.rows, map[], None, None, MarkLeft(s))
  }

  ghost predicate DistinctNumbers(rows: Rows)
  {
    forall a, b | a in rows && b in rows && rows[a].no == rows[b].no :: a == b
  }

  /** One process is past the gate, and it is the one inside the database lock, if any. */
  ghost predicate GateHolds(s: State)
  {
    && (forall p | p in s.jobs :: !s.jobs[p].pc.Waiting? <==> s.gate == Some(p))
    && (forall p | p in s.jobs :: InLock(s.jobs[p].pc) <==> s.lock == Some(p))
    && (s.gate.Some? ==> s.gate.value in s.jobs)
    && (s.lock.Some? ==> s.lock.value in s.jobs)
  }

  /** Every operation's own version is stored once and by nobody else. */
  ghost predicate OwnVersions(s: State)
  {
    OwnStored(s) && OwnDistinct(s)
  }

  ghost predicate OwnStored(s: State)
  {
    forall p | p in s.jobs :: s.jobs[p].op.version in s.rows <==> !NotYetStored(s.jobs[p].pc)
  }

  ghost predicate OwnDistinct(s: State)
  {
    forall p, q | p in s.jobs && q in s.jobs && s.jobs[p].op.version == s.jobs[q].op.version :: p == q
  }

  /** The version an operation is going to mark exists. */
  ghost predicate TargetsExist(s: State)
  {
    && (forall p | p in s.jobs && s.jobs[p].op.Rollback? :: s.jobs[p].op.target in s.rows)
    && (forall p | p in s.jobs && InLock(s.jobs[p].pc) :: s.jobs[p].pc.target in s.rows)
  }

  /** The reserved number is still the next one. */
  ghost predicate NumbersFit(s: State)
  {
    && DistinctNumbers(s.rows)
    && (forall p | p in s.jobs && s.jobs[p].pc.Reserved? :: s.jobs[p].pc.no == NextNo(s.rows))
  }

  ghost predicate NoneCurrent(rows: Rows)
  {
    forall id | id in rows :: !rows[id].current
  }

  ghost predicate SeveralCurrent(rows: Rows)
  {
    exists a, b | a in rows && b in rows && a != b :: rows[a].current && rows[b].current
  }

  ghost predicate Shows(rows: Rows, mark: MarkState)
  {
    match mark
    case Whole => OneCurrent(rows)
    case Lost => NoneCurrent(rows)
    case Doubled => SeveralCurrent(rows)
  }

  lemma ShowsExactly(rows: Rows, mark: MarkState)
    requires Shows(rows, mark)
    ensures OneCurrent(rows) <==> mark.Whole?
    ensures NoneCurrent(rows) <==> mark.Lost?
    ensures SeveralCurrent(rows) <==> mark.Doubled?
  {
    if OneCurrent(rows) {
      var id :| OnlyCurrent(rows, id);
    }
  }

  /** The mark is what the table shows while the database lock is free; inside it, what the table showed before. */
  ghost predicate CurrentFits(s: State)
  {
    && (s.lock.None? ==> Shows(s.rows, s.mark))
    && (forall p | p in s.jobs && s.jobs[p].pc.Unmarking? && s.jobs[p].op.Rollback? :: Shows(s.rows, s.mark))
    && (forall p | p in s.jobs && s.jobs[p].pc.Unmarking? && !s.jobs[p].op.Rollback? ::
          var id := s.jobs[p].op.version;
          s.jobs[p].op.Update? && id in s.rows && s.rows[id].current && Shows(s.rows - {id}, s.mark))
  }

  /** The version a request makes current. */
  function Named(op: Operation): Option<Id>
  {
    match op
    case Update(version) => Some(version)
    case Replace(_) => None
    case Rollback(_, target) => Some(target)
  }

  /** Who is about to mark a version marks the one its request names. */
  ghost predicate TargetsAreNamed(s: State)
  {
    forall p | p in s.jobs && InLock(s.jobs[p].pc) :: Named(s.jobs[p].op) == Some(s.jobs[p].pc.target)
  }

  /** What every reachable state satisfies. */
  ghost predicate Inv(s: State)
  {
    && GateHolds(s) && OwnVersions(s) && TargetsExist(s) && TargetsAreNamed(s)
    && NumbersFit(s) && CurrentFits(s) && AllUnmarked(s)
  }

  ghost predicate AllUnmarked(s: State)
  {
    forall p | p in s.jobs && s.jobs[p].pc.Marking? :: NoneCurrent(s.rows)
  }

  lemma NextNoIsNew(rows: Rows)
    ensures NextNo(rows) !in Numbers(rows) && forall id | id in rows :: rows[id].no < NextNo(rows)
  {
    forall id | id in rows ensures rows[id].no in Numbers(rows) {
    }
  }

  lemma MarkingKeepsNumbers(rows: Rows, id: Id)
    ensures Numbers(UnmarkAll(rows)) == Numbers(rows) && Numbers(MarkOne(rows, id)) == Numbers(rows)
  {
    forall n | n in Numbers(rows) ensures n in Numbers(UnmarkAll(rows)) && n in Numbers(MarkOne(rows, id)) {
      var other :| other in rows && rows[other].no == n;
      assert UnmarkAll(rows)[other].no == n && MarkOne(rows, id)[other].no == n;
    }
  }

  /** A reservation never comes to grief: the insert's uniqueness constraints hold when its turn comes. */
  lemma InsertIsPossible(s: State, p: Process)
    requires Inv(s) && p in s.jobs && s.jobs[p].pc.Reserved?
    ensures Enabled(s, Insert(p))
  {
    NextNoIsNew(s.rows);
  }

  lemma GateStep(s: State, e: Event)
    requires GateHolds(s) && TargetsExist(s) && Enabled(s, e)
    ensures GateHolds(Next(s, e))
  {
  }

  lemma OwnDistinctStep(s: State, e: Event)
    requires OwnDistinct(s) && Enabled(s, e)
    ensures OwnDistinct(Next(s, e))
  {
    var t := Next(s, e);
    assert forall p | p in t.jobs && p in s.jobs :: t.jobs[p].op == s.jobs[p].op;
  }

  lemma OwnStoredStep(s: State, e: Event)
    requires OwnVersions(s) && Enabled(s, e)
    ensures OwnStored(Next(s, e))
  {
  }

  lemma TargetsStep(s: State, e: Event)
    requires TargetsExist(s) && Enabled(s, e)
    ensures TargetsExist(Next(s, e))
  {
  }

  lemma NamedStep(s: State, e: Event)
    requires TargetsAreNamed(s) && Enabled(s, e)
    ensures TargetsAreNamed(Next(s, e))
  {
  }

  lemma NumbersStep(s: State, e: Event)
    requires GateHolds(s) && NumbersFit(s) && Enabled(s, e)
    ensures NumbersFit(Next(s, e))
  {
    NextNoIsNew(s.rows);
    if e.Unmark? || e.Mark? {
      MarkingKeepsNumbers(s.rows, s.jobs[e.p].pc.target);
    }
  }

  lemma CurrentInsert(s: State, p: Process)
    requires GateHolds(s) && OwnVersions(s) && CurrentFits(s) && AllUnmarked(s) && Enabled(s, Insert(p))
    ensures CurrentFits(Next(s, Insert(p))) && AllUnmarked(Next(s, Insert(p)))
  {
    var id, no := s.jobs[p].op.version, s.jobs[p].pc.no;
    if s.jobs[p].op.Update? {
      assert s.rows[id := Row(no, true)] - {id} == s.rows;
    } else {
      AddingNotCurrent(s.rows, id, no, s.mark);
    }
  }

  /** What a process inside the database lock leaves behind. */
  lemma LeftBehind(s: State)
    requires GateHolds(s) && CurrentFits(s) && AllUnmarked(s)
    ensures Shows(s.rows, MarkLeft(s))
  {
    if s.lock.Some? && s.jobs[s.lock.value].pc.Unmarking? && s.jobs[s.lock.value].op.Update? {
      AddingCurrent(s.rows, s.jobs[s.lock.value].op.version, s.mark);
    }
  }

  lemma CurrentStep(s: State, e: Event)
    requires GateHolds(s) && TargetsExist(s) && OwnVersions(s) && CurrentFits(s) && AllUnmarked(s) && Enabled(s, e)
    ensures CurrentFits(Next(s, e)) && AllUnmarked(Next(s, e))
  {
    match e
    case Mark(p) => MarkingUnmarked(s.rows, s.jobs[p].pc.target);
    case Insert(p) => CurrentInsert(s, p);
    case Fail(_) => LeftBehind(s);
    case Crash => LeftBehind(s);
    case _ =>
  }

  lemma MarkingUnmarked(rows: Rows, id: Id)
    requires id in rows && NoneCurrent(rows)
    ensures OneCurrent(MarkOne(rows, id))
  {
    assert OnlyCurrent(MarkOne(rows, id), id);
  }

  lemma AddingNotCurrent(rows: Rows, id: Id, no: nat, mark: MarkState)
    requires id !in rows && Shows(rows, mark)
    ensures Shows(rows[id := Row(no, false)], mark)
  {
    var more := rows[id := Row(no, false)];
    match mark
    case Whole =>
      var current :| OnlyCurrent(rows, current);
      assert OnlyCurrent(more, current);
    case Lost =>
    case Doubled =>
      var a, b :| a in rows && b in rows && a != b && rows[a].current && rows[b].current;
      assert a in more && b in more && more[a].current && more[b].current;
  }

  lemma AddingCurrent(rows: Rows, id: Id, mark: MarkState)
    requires id in rows && rows[id].current && Shows(rows - {id}, mark)
    ensures Shows(rows, if mark.Lost? then Whole else Doubled)
  {
    var others := rows - {id};
    match mark
    case Whole =>
      var current :| OnlyCurrent(others, current);
      assert current in rows && current != id;
    case Lost =>
      forall other | other in rows && rows[other].current ensures other == id {
        assert other != id ==> other in others;
      }
      assert OnlyCurrent(rows, id);
    case Doubled =>
      var a, b :| a in others && b in others && a != b && others[a].current && others[b].current;
      assert a in rows && b in rows && rows[a].current && rows[b].current;
  }

  lemma StepKeepsInv(s: State, e: Event)
    requires Inv(s) && Enabled(s, e)
    ensures Inv(Next(s, e))
  {
    GateStep(s, e);
    OwnDistinctStep(s, e);
    OwnStoredStep(s, e);
    TargetsStep(s, e);
    NamedStep(s, e);
    NumbersStep(s, e);
    CurrentStep(s, e);
  }

  ghost predicate Run(s: State, events: seq<Event>, t: State)
    decreases |events|
  {
    if events == [] then s == t
    else Enabled(s, events[0]) && Run(Next(s, events[0]), events[1..], t)
  }

  /** A new project: one baseline version, which is current. */
  function Initial(baseline: Id): State
  {
    State(map[baseline := Row(1, true)], map[], None, None, Whole)
  }

  lemma {:induction false} RunKeepsInv(s: State, events: seq<Event>, t: State)
    requires Inv(s) && Run(s, events, t)
    ensures Inv(t)
    decreases |events|
  {
    if events != [] {
      StepKeepsInv(s, events[0]);
      RunKeepsInv(Next(s, events[0]), events[1..], t);
    }
  }

  /** Version numbers only grow, and no version is ever renumbered or lost. */
  ghost predicate Extends(later: Rows, earlier: Rows)
  {
    && (forall id | id in earlier :: id in later && later[id].no == earlier[id].no)
    && (forall id, old' | id in later && id !in earlier && old' in earlier :: earlier[old'].no < later[id].no)
  }

  lemma InsertExtends(rows: Rows, id: Id, no: nat, current: bool)
    requires id !in rows && forall old' | old' in rows :: rows[old'].no < no
    ensures Extends(rows[id := Row(no, current)], rows)
  {
  }

  lemma StepExtends(s: State, e: Event)
    requires OwnStored(s) && NumbersFit(s) && Enabled(s, e)
    ensures Extends(Next(s, e).rows, s.rows)
  {
    match e
    case Insert(p) =>
      NextNoIsNew(s.rows);
      InsertExtends(s.rows, s.jobs[p].op.version, s.jobs[p].pc.no, s.jobs[p].op.Update?);
    case _ =>
  }

  lemma InitialInv(baseline: Id)
    ensures Inv(Initial(baseline))
  {
    assert OnlyCurrent(Initial(baseline).rows, baseline);
  }

  /** In any run, crashes and failing statements included, from the creation of a project: a later version has a higher number than every
      earlier one, numbers are unique, and whenever the database lock is free, one version, none or several are
      current exactly as they left the mark. */
  lemma AnyRun(baseline: Id, before: seq<Event>, middle: State, after: seq<Event>, end: State)
    requires Run(Initial(baseline), before, middle) && Run(middle, after, end)
    ensures Extends(end.rows, middle.rows) && DistinctNumbers(end.rows)
    ensures end.lock.None? ==> (OneCurrent(end.rows) <==> end.mark.Whole?)
    ensures end.lock.None? ==> (NoneCurrent(end.rows) <==> end.mark.Lost?) && (SeveralCurrent(end.rows) <==> end.mark.Doubled?)
  {
    InitialInv(baseline);
    RunKeepsInv(Initial(baseline), before, middle);
    RunKeepsInv(middle, after, end);
    RunExtends(middle, after, end);
    if end.lock.None? {
      ShowsExactly(end.rows, end.mark);
    }
  }

  /** In any run a number that was reserved is still the next one and free when it is used. */
  lemma ReservationHolds(baseline: Id, events: seq<Event>, s: State, p: Process)
    requires Run(Initial(baseline), events, s) && p in s.jobs && s.jobs[p].pc.Reserved?
    ensures s.jobs[p].pc.no == NextNo(s.rows) && Enabled(s, Insert(p))
  {
    InitialInv(baseline);
    RunKeepsInv(Initial(baseline), events, s);
    InsertIsPossible(s, p);
  }

  /** The insert stores the version of the request, under the reserved number, current only for a publication. */
  lemma InsertStores(baseline: Id, events: seq<Event>, s: State, p: Process)
    requires Run(Initial(baseline), events, s) && Enabled(s, Insert(p))
    ensures var op := s.jobs[p].op; var after := Next(s, Insert(p)).rows;
      && op.version !in s.rows && after == s.rows[op.version := Row(s.jobs[p].pc.no, op.Update?)]
      && forall id | id in s.rows :: s.rows[id].no < after[op.version].no
  {
    ReservationHolds(baseline, events, s, p);
    NextNoIsNew(s.rows);
  }

  /** In any run the marking leaves exactly the version current that the request names: a publication its own, a
      rollback its target and not the safety version it has stored. */
  lemma MarkMakesCurrent(baseline: Id, events: seq<Event>, s: State, p: Process)
    requires Run(Initial(baseline), events, s) && Enabled(s, Mark(p))
    ensures var op := s.jobs[p].op; var after := Next(s, Mark(p)).rows;
      && !op.Replace?
      && (op.Update? ==> forall id | id in after :: after[id].current <==> id == op.version)
      && (op.Rollback? ==> forall id | id in after :: after[id].current <==> id == op.target)
      && Named(op).Some? && OnlyCurrent(after, Named(op).value)
  {
    InitialInv(baseline);
    RunKeepsInv(Initial(baseline), events, s);
  }

  lemma {:induction false} RunExtends(s: State, events: seq<Event>, t: State)
    requires Inv(s) && Run(s, events, t)
    ensures Extends(t.rows, s.rows)
    decreases |events|
  {
    if events != [] {
      StepKeepsInv(s, events[0]);
      StepExtends(s, events[0]);
      RunExtends(Next(s, events[0]), events[1..], t);
    }
  }

  /** Neither a crash nor a failing statement inside the database lock. */
  predicate Undisturbed(events: seq<Event>)
  {
    forall e | e in events :: !e.Crash? && !e.Fail?
  }

  /** The version named by the last request that finished its marking in a run, or else `before`. */
  ghost function LastNamed(s: State, events: seq<Event>, t: State, before: Id): Id
    requires Run(s, events, t)
    decreases |events|
  {
    if events == [] then before
    else LastNamed(Next(s, events[0]), events[1..], t, NamedBy(s, events[0], before))
  }

  function NamedBy(s: State, e: Event, before: Id): Id
    requires Enabled(s, e)
  {
    if e.Mark? && Named(s.jobs[e.p].op).Some? then Named(s.jobs[e.p].op).value else before
  }

  lemma CurrentStays(s: State, e: Event, id: Id)
    requires Inv(s) && Enabled(s, e) && !e.Crash? && !e.Fail?
    requires s.lock.None? ==> OnlyCurrent(s.rows, id)
    ensures Next(s, e).lock.None? ==> OnlyCurrent(Next(s, e).rows, NamedBy(s, e, id))
  {
  }

  lemma {:induction false} UndisturbedNames(s: State, events: seq<Event>, t: State, id: Id)
    requires Inv(s) && Run(s, events, t) && Undisturbed(events)
    requires s.lock.None? ==> OnlyCurrent(s.rows, id)
    ensures t.lock.None? ==> OnlyCurrent(t.rows, LastNamed(s, events, t, id))
    decreases |events|
  {
    if events != [] {
      StepKeepsInv(s, events[0]);
      CurrentStays(s, events[0], id);
      UndisturbedNames(Next(s, events[0]), events[1..], t, NamedBy(s, events[0], id));
    }
  }

  /** Without crashes and failing statements, exactly one version is current whenever the database lock is free: the
      one named by the last publication or rollback that finished its marking. */
  lemma OneCurrentWithoutCrash(baseline: Id, events: seq<Event>, s: State)
    requires Run(Initial(baseline), events, s) && Undisturbed(events) && s.lock.None?
    ensures OneCurrent(s.rows) && OnlyCurrent(s.rows, LastNamed(Initial(baseline), events, s, baseline))
  {
    InitialInv(baseline);
    UndisturbedNames(Initial(baseline), events, s, baseline);
  }

  /** And whatever crashes and failures there were before, a finished marking puts this right: from then on, up to the
      next of them, the current version is again the one named last. */
  lemma MarkingRepairs(baseline: Id, before: seq<Event>, s: State, p: Process, after: seq<Event>, t: State)
    requires Run(Initial(baseline), before, s) && Enabled(s, Mark(p))
    requires Run(Next(s, Mark(p)), after, t) && Undisturbed(after) && t.lock.None?
    ensures Named(s.jobs[p].op).Some?
    ensures OnlyCurrent(t.rows, LastNamed(Next(s, Mark(p)), after, t, Named(s.jobs[p].op).value))
  {
    InitialInv(baseline);
    RunKeepsInv(Initial(baseline), before, s);
    StepKeepsInv(s, Mark(p));
    MarkMakesCurrent(baseline, before, s, p);
    UndisturbedNames(Next(s, Mark(p)), after, t, Named(s.jobs[p].op).value);
  }

  /** The statements of a publication are not one transaction: a crash after the insert leaves two current versions,
      one between the two updates leaves none. */
  lemma CrashTearsMarking(old': Id, new': Id)
    requires old' != new'
    ensures var s := Next(Next(Next(Next(Initial(old'), Begin(0, Update(new'))), Enter(0)), Reserve(0)), Insert(0));
      && Next(s, Crash).rows[old'].current && Next(s, Crash).rows[new'].current
      && Next(s, Fail(0)).lock.None? && Next(s, Fail(0)).rows == Next(s, Crash).rows
      && var t := Next(Next(s, Unmark(0)), Crash); t.lock.None? && NoneCurrent(t.rows)
  {
    NextNoIsNew(Initial(old').rows);
  }
}
