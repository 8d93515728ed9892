/** What holds of the database host in every run of interleaved calls. */
module DbRuns {
  import opened Outcomes
  import opened DbProtocol

  lemma InitialInv()
    ensures Inv(INITIAL)
  {
    assert forall o :: Held(INITIAL, o).None?;
  }

  lemma {:induction false} ReachableInv(steps: seq<Step>)
    requires CanRun(INITIAL, steps)
    ensures Inv(Run(INITIAL, steps))
  {
    InitialInv();
    RunKeepsInvariant(INITIAL, steps);
  }

  // ------------------------------------------------ reading a history

  /** Nothing happens to a database after it is closed: it is closed at most once,
      and no transaction is begun, finished or used on it later. */
  ghost predicate ClosedIsFinal(log: seq<Event>) {
    forall i, j :: 0 <= i < j < |log| && log[i].Closed? ==> log[j].db != log[i].db
  }

  /** Handle ids strictly increase, so none is issued twice. */
  ghost predicate IdsIncrease(log: seq<Event>) {
    forall i, j :: 0 <= i < j < |log| && log[i].Issued? && log[j].Issued? ==> log[i].id < log[j].id
  }

  /** A transaction is begun once, finished at most once and not used after. */
  ghost predicate FinishedIsFinal(log: seq<Event>) {
    forall i, j :: 0 <= i < j < |log| && log[i].Finished? ==>
      && (log[j].Finished? ==> log[j].tx != log[i].tx)
      && (log[j].Begun? ==> log[j].tx != log[i].tx)
      && (log[j].Executed? && log[j].db == log[i].db ==> log[j].within != Some(log[i].tx))
  }

  /** A database is closed only after each of its transactions was finished. */
  ghost predicate NoTransactionIsLeaked(log: seq<Event>) {
    forall i, j :: 0 <= i < j < |log| && log[i].Begun? && log[j] == Closed(log[i].db) ==>
      FinishedIn(log[..j], log[i].db, log[i].tx)
  }

  /** A database has one open transaction at a time. */
  ghost predicate OneTransactionAtATime(log: seq<Event>) {
    forall i, j :: 0 <= i < j < |log| && log[i].Begun? && log[j].Begun? && log[i].db == log[j].db ==>
      FinishedIn(log[..j], log[i].db, log[i].tx)
  }

  lemma Earlier(log: seq<Event>, i: nat, j: nat)
    requires i < j < |log| && Disciplined(log)
    ensures log[i] in log[..j] && Admissible(log[..j], log[j])
  {
    assert log[..j][i] == log[i];
  }

  lemma BegunTxIsUnique(log: seq<Event>, i: nat, k: nat)
    requires i < |log| && k < |log| && Disciplined(log)
    requires log[i].Begun? && log[k].Begun? && log[i].tx == log[k].tx
    ensures i == k
  {
    if i < k { Earlier(log, i, k); }
    if k < i { Earlier(log, k, i); }
  }

  lemma FinishedLater(log: seq<Event>, i: nat, j: nat)
    requires i < j < |log| && Disciplined(log) && log[i].Finished?
    ensures log[j].Finished? ==> log[j].tx != log[i].tx
    ensures log[j].Begun? ==> log[j].tx != log[i].tx
    ensures log[j].Executed? && log[j].db == log[i].db ==> log[j].within != Some(log[i].tx)
  {
    var tx := log[i].tx;
    Earlier(log, i, j);
    assert FinishedIn(log[..j], log[i].db, tx);
    assert !Unfinished(log[..j], log[i].db, tx);
    assert Admissible(log[..i], log[i]);
    var b :| 0 <= b < i && log[b] == Begun(log[i].db, tx);
    Earlier(log, b, j);
    if log[j].Finished? && log[j].tx == tx {
      assert Begun(log[j].db, tx) in log[..j];
      var c :| 0 <= c < j && log[c] == Begun(log[j].db, tx);
      BegunTxIsUnique(log, b, c);
    }
  }

  lemma DisciplineMeans(log: seq<Event>)
    requires Disciplined(log)
    ensures ClosedIsFinal(log) && IdsIncrease(log) && FinishedIsFinal(log)
    ensures NoTransactionIsLeaked(log) && OneTransactionAtATime(log)
  {
    forall i, j | 0 <= i < j < |log|
      ensures log[i].Closed? ==> log[j].db != log[i].db
      ensures log[i].Issued? && log[j].Issued? ==> log[i].id < log[j].id
      ensures log[i].Begun? && log[j] == Closed(log[i].db) ==> FinishedIn(log[..j], log[i].db, log[i].tx)
      ensures log[i].Begun? && log[j].Begun? && log[i].db == log[j].db ==>
        FinishedIn(log[..j], log[i].db, log[i].tx)
    {
      Earlier(log, i, j);
      if log[i].Begun? {
        assert Unfinished(log[..j], log[i].db, log[i].tx) || FinishedIn(log[..j], log[i].db, log[i].tx);
      }
    }
    forall i, j | 0 <= i < j < |log| && log[i].Finished?
      ensures log[j].Finished? ==> log[j].tx != log[i].tx
      ensures log[j].Begun? ==> log[j].tx != log[i].tx
      ensures log[j].Executed? && log[j].db == log[i].db ==> log[j].within != Some(log[i].tx)
    {
      FinishedLater(log, i, j);
    }
  }

  /** Safety of every interleaving: at most eight live handles, ids never reused,
      each transaction finished at most once and never after its database closed. */
  lemma {:induction false} EveryRunIsSafe(steps: seq<Step>)
    requires CanRun(INITIAL, steps)
    ensures var h := Run(INITIAL, steps).shared;
      && |h.handles| <= 8
      && ClosedIsFinal(h.log) && IdsIncrease(h.log) && FinishedIsFinal(h.log)
      && NoTransactionIsLeaked(h.log) && OneTransactionAtATime(h.log)
  {
    ReachableInv(steps);
    RunKeepsBound(INITIAL, steps);
    DisciplineMeans(Run(INITIAL, steps).shared.log);
  }

  // --------------------------------------------------------- conservation

  ghost function OpenedDbs(log: seq<Event>): set<Db> {
    set e | e in log && e.Opened? :: e.db
  }

  ghost function ClosedDbs(log: seq<Event>): set<Db> {
    set e | e in log && e.Closed? :: e.db
  }

  ghost function LiveDbs(s: State): set<Db> {
    set id | id in s.shared.handles :: s.shared.handles[id].db
  }

  ghost function InFlightDbs(s: State): set<Db> {
    set t | t in s.threads && Held(s, ByThread(t)).Some? :: Held(s, ByThread(t)).value.db
  }

  lemma OwnedIsLiveOrInFlight(s: State, db: Db)
    ensures Owned(s, db) <==> db in LiveDbs(s) || db in InFlightDbs(s)
  {
    if Owned(s, db) {
      var o :| Held(s, o).Some? && Held(s, o).value.db == db;
      match o
      case ById(id) => assert id in s.shared.handles;
      case ByThread(t) => assert t in s.threads;
    }
    if db in LiveDbs(s) {
      var id :| id in s.shared.handles && s.shared.handles[id].db == db;
      assert Held(s, ById(id)).Some?;
    }
  }

  /** Opened databases are the live, the in-flight and the closed ones, each in one class. */
  lemma {:induction false} Conservation(steps: seq<Step>)
    requires CanRun(INITIAL, steps)
    ensures var s := Run(INITIAL, steps);
      && OpenedDbs(s.shared.log) == LiveDbs(s) + InFlightDbs(s) + ClosedDbs(s.shared.log)
      && LiveDbs(s) !! InFlightDbs(s) !! ClosedDbs(s.shared.log)
      && |LiveDbs(s)| == |s.shared.handles|
  {
    ReachableInv(steps);
    var s := Run(INITIAL, steps);
    Partition(s);
    LiveCount(s);
  }

  lemma Partition(s: State)
    requires Inv(s)
    ensures OpenedDbs(s.shared.log) == LiveDbs(s) + InFlightDbs(s) + ClosedDbs(s.shared.log)
    ensures LiveDbs(s) !! InFlightDbs(s) !! ClosedDbs(s.shared.log)
  {
    hide OpenedDbs, ClosedDbs, LiveDbs, InFlightDbs, Inv;
    var log := s.shared.log;
    forall db
      ensures db in OpenedDbs(log) <==> db in LiveDbs(s) || db in InFlightDbs(s) || db in ClosedDbs(log)
      ensures !((db in LiveDbs(s) || db in InFlightDbs(s)) && db in ClosedDbs(log))
      ensures !(db in LiveDbs(s) && db in InFlightDbs(s))
    {
      PartitionAt(s, db);
    }
  }

  lemma PartitionAt(s: State, db: Db)
    requires Inv(s)
    ensures var log := s.shared.log;
      && (db in OpenedDbs(log) <==> db in LiveDbs(s) || db in InFlightDbs(s) || db in ClosedDbs(log))
      && !((db in LiveDbs(s) || db in InFlightDbs(s)) && db in ClosedDbs(log))
      && !(db in LiveDbs(s) && db in InFlightDbs(s))
  {
    hide Disciplined;
    var log := s.shared.log;
    if db in LiveDbs(s) { NotBoth(s, db); }
    OwnedIsLiveOrInFlight(s, db);
    if Owned(s, db) {
      var o :| Held(s, o).Some? && Held(s, o).value.db == db;
      assert OpenIn(log, db);
    }
    assert db in OpenedDbs(log) <==> Opened(db) in log;
    assert db in ClosedDbs(log) <==> Closed(db) in log;
    assert Closed(db) in log ==> Opened(db) in log by { assert Grounded(log); }
  }

  lemma NotBoth(s: State, db: Db)
    requires OwnersAgree(s) && db in LiveDbs(s)
    ensures db !in InFlightDbs(s)
  {
    var id :| id in s.shared.handles && s.shared.handles[id].db == db;
    assert Held(s, ById(id)).value.db == db;
    forall t | t in s.threads && Held(s, ByThread(t)).Some? ensures Held(s, ByThread(t)).value.db != db {}
  }

  lemma LiveCount(s: State)
    requires OwnersAgree(s)
    ensures |LiveDbs(s)| == |s.shared.handles|
  {
    forall i, j | i in s.shared.handles && j in s.shared.handles && s.shared.handles[i].db == s.shared.handles[j].db
      ensures i == j
    {
      assert Held(s, ById(i)).value.db == Held(s, ById(j)).value.db;
    }
    DistinctImages(s.shared.handles);
    assert LiveDbs(s) == Dbs(s.shared.handles);
  }

  ghost function Dbs(m: map<nat, Entry>): set<Db> {
    set i | i in m :: m[i].db
  }

  lemma {:induction false} DistinctImages(m: map<nat, Entry>)
    requires forall i, j :: i in m && j in m && m[i].db == m[j].db ==> i == j
    ensures |Dbs(m)| == |m|
    decreases |m|
  {
    if m != map[] {
      var k :| k in m;
      var rest := m - {k};
      assert m.Keys == rest.Keys + {k};
      DistinctImages(rest);
      forall d ensures d in Dbs(m) <==> d in Dbs(rest) + {m[k].db} {
        if d in Dbs(m) {
          var i :| i in m && m[i].db == d;
          assert i != k ==> i in rest;
        }
      }
      assert Dbs(m) == Dbs(rest) + {m[k].db};
    }
  }

  // -------------------------------------------------- what Close took

  lemma HeldIsOpened(s: State, o: Owner)
    requires Inv(s) && Held(s, o).Some?
    ensures OpenIn(s.shared.log, Held(s, o).value.db)
  {
  }

  function ThreadOf(step: Step): Thread {
    step.t
  }

  /** A handle that Close took out of the map is out of reach of every other call:
      no step of another thread changes it or makes the driver touch its database. */
  lemma TakenIsPrivate(s: State, step: Step, t: Thread)
    requires Inv(s) && Enabled(s, step) && Held(s, ByThread(t)).Some? && ThreadOf(step) != t
    ensures Held(Next(s, step), ByThread(t)) == Held(s, ByThread(t))
    ensures forall k :: |s.shared.log| <= k < |Next(s, step).shared.log| ==>
      Next(s, step).shared.log[k].db != Held(s, ByThread(t)).value.db
  {
    hide Disciplined, NothingLost, IdsAgree, Grounded, EntriesAgree;
    var db := Held(s, ByThread(t)).value.db;
    match step
    case OpenDb(u, other) => HeldIsOpened(s, ByThread(t));
    case Ping(u, ok) => assert Held(s, ByThread(u)).value.db != db;
    case RegisterDb(u) => assert Held(s, ByThread(u)).value.db != db;
    case RollBackTaken(u) => assert Held(s, ByThread(u)).value.db != db;
    case CloseTaken(u) => assert Held(s, ByThread(u)).value.db != db;
    case BeginTx(u, id, began) => assert Held(s, ById(id)).Some? ==> Held(s, ById(id)).value.db != db;
    case FinishTx(u, id, commit, driverOk) => assert Held(s, ById(id)).Some? ==> Held(s, ById(id)).value.db != db;
    case ExecSql(u, id, affected) => assert Held(s, ById(id)).Some? ==> Held(s, ById(id)).value.db != db;
    case _ =>
  }

  // ------------------------------------------------------------- progress

  /** How many steps of its own a call outside the mutex can still take. */
  function Work(pc: Pc): nat {
    match pc
    case Opening(db) => 2
    case Pinged(db) => 1
    case Sweeping(todo) => 3 * |todo| + 1
    case Holding(entry, todo) => 3 * |todo| + 3
    case Closing(db, todo) => 3 * |todo| + 2
  }

  /** A call in flight is never stuck: it has a step of its own, that step brings it
      nearer its end, and no step of another call takes it further away. */
  lemma CallsCanFinish(s: State, t: Thread) returns (step: Step)
    requires t in s.threads
    ensures Enabled(s, step) && ThreadOf(step) == t
    ensures t in Next(s, step).threads ==> Work(Next(s, step).threads[t]) < Work(s.threads[t])
    ensures forall other :: Enabled(s, other) && ThreadOf(other) != t ==>
      t in Next(s, other).threads && Next(s, other).threads[t] == s.threads[t]
  {
    match s.threads[t]
    case Opening(db) => step := Ping(t, true);
    case Pinged(db) => step := RegisterDb(t);
    case Sweeping(todo) => step := if todo == [] then Return(t) else TakeNext(t);
    case Holding(entry, todo) => step := RollBackTaken(t);
    case Closing(db, todo) => step := CloseTaken(t);
  }

  // ------------------------------------------------------------- CloseAll

  /** The ids a sweeping call has still to close. */
  function Todo(s: State, t: Thread): seq<nat> {
    if t !in s.threads then []
    else match s.threads[t]
      case Sweeping(todo) => todo
      case Holding(entry, todo) => todo
      case Closing(db, todo) => todo
      case _ => []
  }

  /** Every live handle was issued after `mark`, or is still on the call's list. */
  ghost predicate Draining(s: State, t: Thread, mark: nat) {
    forall id :: id in s.shared.handles ==> id > mark || id in Todo(s, t)
  }

  lemma OnlyNextIdAppears(s: State, step: Step)
    requires Enabled(s, step)
    ensures forall id :: id in Next(s, step).shared.handles ==> id in s.shared.handles || id == s.shared.current + 1
    ensures s.shared.current <= Next(s, step).shared.current
  {
  }

  lemma TodoShrinksByTake(s: State, step: Step, t: Thread, id: nat)
    requires Enabled(s, step) && id in Todo(s, t) && id in Next(s, step).shared.handles
    ensures id in Todo(Next(s, step), t)
  {
    if step == TakeNext(t) {
      var todo := s.threads[t].todo;
      assert todo == [todo[0]] + todo[1..];
    }
  }

  lemma StepKeepsDraining(s: State, step: Step, t: Thread, mark: nat)
    requires Enabled(s, step) && Draining(s, t, mark) && mark <= s.shared.current
    ensures Draining(Next(s, step), t, mark) && mark <= Next(s, step).shared.current
  {
    hide Next, Todo;
    OnlyNextIdAppears(s, step);
    forall id | id in Next(s, step).shared.handles ensures id > mark || id in Todo(Next(s, step), t) {
      if id <= mark { TodoShrinksByTake(s, step, t, id); }
    }
  }

  lemma {:induction false} RunKeepsDraining(s: State, steps: seq<Step>, t: Thread, mark: nat)
    requires CanRun(s, steps) && Draining(s, t, mark) && mark <= s.shared.current
    ensures Draining(Run(s, steps), t, mark)
    decreases |steps|
  {
    hide Next, Enabled, Draining;
    if steps != [] {
      StepKeepsDraining(s, steps[0], t, mark);
      RunKeepsDraining(Next(s, steps[0]), steps[1..], t, mark);
    }
  }

  /** Whatever else runs, once a CloseAll has returned the only live handles are
      those issued after it listed the ids. */
  lemma {:induction false} CloseAllLeavesOnlyLaterHandles(s: State, t: Thread, ids: seq<nat>, steps: seq<Step>)
    requires Enabled(s, StartCloseAll(t, ids)) && CanRun(Next(s, StartCloseAll(t, ids)), steps)
    requires t !in Run(Next(s, StartCloseAll(t, ids)), steps).threads
    ensures forall id :: id in Run(Next(s, StartCloseAll(t, ids)), steps).shared.handles ==> id > s.shared.current
  {
    var started := Next(s, StartCloseAll(t, ids));
    RunKeepsDraining(started, steps, t, s.shared.current);
  }

  lemma {:induction false} NoRegisterKeepsCurrent(s: State, steps: seq<Step>)
    requires CanRun(s, steps) && forall i :: 0 <= i < |steps| ==> !steps[i].RegisterDb?
    requires forall id :: id in s.shared.handles ==> id <= s.shared.current
    ensures Run(s, steps).shared.current == s.shared.current
    ensures forall id :: id in Run(s, steps).shared.handles ==> id <= s.shared.current
    decreases |steps|
  {
    if steps != [] {
      var n := Next(s, steps[0]);
      assert n.shared.current == s.shared.current && n.shared.handles.Keys <= s.shared.handles.Keys;
      NoRegisterKeepsCurrent(n, steps[1..]);
    }
  }

  /** How often a database is closed in a history. */
  function Closes(log: seq<Event>, db: Db): nat {
    if log == [] then 0 else (if log[0] == Closed(db) then 1 else 0) + Closes(log[1..], db)
  }

  lemma {:induction false} ClosesOnce(log: seq<Event>, db: Db)
    requires ClosedIsFinal(log)
    ensures Closes(log, db) == if Closed(db) in log then 1 else 0
  {
    if log != [] {
      forall i, j | 0 <= i < j < |log[1..]| && log[1..][i].Closed? ensures log[1..][j].db != log[1..][i].db {
        assert log[i + 1].Closed? && log[j + 1].db != log[i + 1].db;
      }
      ClosesOnce(log[1..], db);
      if log[0] == Closed(db) {
        forall j | 0 <= j < |log[1..]| ensures log[1..][j] != Closed(db) {
          assert log[0].Closed? && log[j + 1].db != log[0].db;
        }
      }
    }
  }

  lemma QuietIsClosedOnce(s: State)
    requires Inv(s) && s.threads == map[] && s.shared.handles == map[]
    ensures forall db :: Opened(db) in s.shared.log ==> Closes(s.shared.log, db) == 1
  {
    hide Disciplined;
    DisciplineMeans(s.shared.log);
    forall db | Opened(db) in s.shared.log ensures Closes(s.shared.log, db) == 1 {
      ClosesOnce(s.shared.log, db);
      assert !Owned(s, db);
    }
  }

  /** A CloseAll that no Open races with, run to its end together with every call
      in flight, leaves nothing live and every database ever opened closed exactly once. */
  lemma {:induction false} CloseAllClosesEverythingOnce(before: seq<Step>, t: Thread, ids: seq<nat>, after: seq<Step>)
    requires CanRun(INITIAL, before) && Enabled(Run(INITIAL, before), StartCloseAll(t, ids))
    requires CanRun(Next(Run(INITIAL, before), StartCloseAll(t, ids)), after)
    requires forall i :: 0 <= i < |after| ==> !after[i].RegisterDb?
    requires Run(Next(Run(INITIAL, before), StartCloseAll(t, ids)), after).threads == map[]
    ensures var end := Run(Next(Run(INITIAL, before), StartCloseAll(t, ids)), after);
      && end.shared.handles == map[]
      && forall db :: Opened(db) in end.shared.log ==> Closes(end.shared.log, db) == 1
  {
    hide Next, Enabled, Run, CanRun, Inv;
    var s := Run(INITIAL, before);
    ReachableInv(before);
    StepKeepsInvariant(s, StartCloseAll(t, ids));
    var started := Next(s, StartCloseAll(t, ids));
    RunKeepsInvariant(started, after);
    var end := Run(started, after);
    CloseAllEmpties(s, t, ids, after);
    QuietIsClosedOnce(end);
  }

  lemma {:induction false} CloseAllEmpties(s: State, t: Thread, ids: seq<nat>, after: seq<Step>)
    requires Inv(s) && Enabled(s, StartCloseAll(t, ids))
    requires CanRun(Next(s, StartCloseAll(t, ids)), after)
    requires forall i :: 0 <= i < |after| ==> !after[i].RegisterDb?
    requires t !in Run(Next(s, StartCloseAll(t, ids)), after).threads
    ensures Run(Next(s, StartCloseAll(t, ids)), after).shared.handles == map[]
  {
    hide Disciplined, OwnersAgree, NothingLost, Grounded;
    forall id | id in s.shared.handles ensures id <= s.shared.current {
      assert Issued(id, s.shared.handles[id].db) in s.shared.log;
    }
    CloseAllLeavesOnlyLaterHandles(s, t, ids, after);
    NoRegisterKeepsCurrent(Next(s, StartCloseAll(t, ids)), after);
  }

  /** With a racing Open it may not: a database that was still being pinged when the
      ids were listed is live after CloseAll has returned. */
  lemma CloseAllCanMissAnOpen() returns (before: seq<Step>, after: seq<Step>)
    ensures CanRun(INITIAL, before) && Enabled(Run(INITIAL, before), StartCloseAll(1, []))
    ensures CanRun(Next(Run(INITIAL, before), StartCloseAll(1, [])), after)
    ensures var end := Run(Next(Run(INITIAL, before), StartCloseAll(1, [])), after);
      end.threads == map[] && end.shared.handles == map[1 := Entry(0, None)]
  {
    hide CanRun, Run;
    before := [OpenDb(0, 0)] + ([Ping(0, true)] + []);
    after := [Return(1)] + ([RegisterDb(0)] + []);
    var s1 := Next(INITIAL, OpenDb(0, 0));
    var s2 := Next(s1, Ping(0, true));
    NothingRuns(s2);
    OneStep(s1, Ping(0, true), []);
    OneStep(INITIAL, OpenDb(0, 0), [Ping(0, true)] + []);
    assert s2 == State(Shared(0, map[], [Opened(0)]), map[0 := Pinged(0)]);
    var s3 := Next(s2, StartCloseAll(1, []));
    var s4 := Next(s3, Return(1));
    assert s4.threads == map[0 := Pinged(0)];
    var s5 := Next(s4, RegisterDb(0));
    NothingRuns(s5);
    OneStep(s4, RegisterDb(0), []);
    OneStep(s3, Return(1), [RegisterDb(0)] + []);
    assert s5.threads == map[];
  }

  // ------------------------------------------- when CloseAll is complete

  ghost predicate NoOpenIn(steps: seq<Step>) {
    forall i :: 0 <= i < |steps| ==> !steps[i].OpenDb?
  }

  /** A run in which no Open starts and at whose end no call is in flight. */
  ghost predicate QuietRun(s: State, steps: seq<Step>) {
    CanRun(s, steps) && NoOpenIn(steps) && Run(s, steps).threads == map[]
  }

  ghost predicate EverythingIsClosed(s: State) {
    s.shared.handles == map[] && forall db :: Opened(db) in s.shared.log ==> Closes(s.shared.log, db) == 1
  }

  predicate IsOpener(pc: Pc) {
    pc.Opening? || pc.Pinged?
  }

  /** No Open is between its driver call and its return. */
  ghost predicate NobodyOpening(s: State) {
    forall u :: u in s.threads ==> !IsOpener(s.threads[u])
  }

  lemma StepOpensNothing(s: State, step: Step)
    requires NobodyOpening(s) && Enabled(s, step) && !step.OpenDb?
    ensures !step.RegisterDb? && NobodyOpening(Next(s, step))
  {
  }

  lemma {:induction false} NoOpenerNoRegister(s: State, steps: seq<Step>)
    requires NobodyOpening(s) && CanRun(s, steps) && NoOpenIn(steps)
    ensures forall i :: 0 <= i < |steps| ==> !steps[i].RegisterDb?
    decreases |steps|
  {
    hide Enabled, Next, NobodyOpening;
    if steps != [] {
      StepOpensNothing(s, steps[0]);
      NoOpenerNoRegister(Next(s, steps[0]), steps[1..]);
      forall i | 0 <= i < |steps| ensures !steps[i].RegisterDb? {
        if i > 0 { assert steps[i] == steps[1..][i - 1]; }
      }
    }
  }

  /** A call in flight run to its end, alone. */
  lemma {:induction false} FinishOne(s: State, v: Thread) returns (steps: seq<Step>)
    requires v in s.threads
    ensures CanRun(s, steps) && NoOpenIn(steps) && Run(s, steps).threads == s.threads - {v}
    decreases Work(s.threads[v])
  {
    hide CanRun, Run, Work;
    var step := CallsCanFinish(s, v);
    var n := Next(s, step);
    StepIsOwn(s, step);
    if v in n.threads {
      var rest := FinishOne(n, v);
      OneStep(s, step, rest);
      steps := [step] + rest;
      assert n.threads - {v} == s.threads - {v};
    } else {
      NothingRuns(n);
      OneStep(s, step, []);
      steps := [step] + [];
      assert n.threads == s.threads - {v};
    }
  }

  lemma NothingRuns(s: State)
    ensures CanRun(s, []) && Run(s, []) == s
  {
  }

  /** A step of a call in flight starts no Open and leaves the other calls where they are. */
  lemma StepIsOwn(s: State, step: Step)
    requires Enabled(s, step) && ThreadOf(step) in s.threads
    ensures !step.OpenDb? && Next(s, step).threads - {ThreadOf(step)} == s.threads - {ThreadOf(step)}
  {
  }

  /** Every call but one run to its end. */
  lemma {:induction false} FinishOthers(s: State, u: Thread) returns (steps: seq<Step>)
    requires u in s.threads
    ensures CanRun(s, steps) && NoOpenIn(steps) && Run(s, steps).threads == map[u := s.threads[u]]
    decreases |s.threads.Keys|
  {
    hide CanRun, Run;
    if v: Thread :| v in s.threads && v != u {
      var first := FinishOne(s, v);
      var n := Run(s, first);
      assert n.threads.Keys == s.threads.Keys - {v};
      var rest := FinishOthers(n, u);
      RunJoin(s, first, rest);
      steps := first + rest;
    } else {
      NothingRuns(s);
      steps := [];
      assert s.threads == map[u := s.threads[u]];
    }
  }

  /** An Open that is let finish leaves a live handle: its own, or the eight that kept it out. */
  lemma OpenerLeavesHandle(s: State, u: Thread) returns (steps: seq<Step>)
    requires s.threads.Keys == {u} && IsOpener(s.threads[u])
    ensures QuietRun(s, steps) && Run(s, steps).shared.handles != map[]
  {
    hide CanRun, Run;
    var pinged := s;
    if s.threads[u].Opening? { pinged := Next(s, Ping(u, true)); }
    var end := Next(pinged, RegisterDb(u));
    assert end.threads == map[];
    assert end.shared.handles != map[] by { RegisterLeavesHandle(pinged.shared, pinged.threads[u].db); }
    NothingRuns(end);
    OneStep(pinged, RegisterDb(u), []);
    steps := [RegisterDb(u)] + [];
    if s.threads[u].Opening? {
      OneStep(s, Ping(u, true), steps);
      steps := [Ping(u, true)] + steps;
    }
  }

  lemma RegisterLeavesHandle(h: Shared, db: Db)
    ensures Register(h, db).0.handles != map[]
  {
    if |h.handles| < MAX_HANDLES { assert h.current + 1 in Register(h, db).0.handles; }
  }

  /** CloseAll is complete exactly when no Open is in flight as it lists the ids: then every
      quiet run from there closes everything once, and otherwise some quiet run leaves a
      live handle. */
  lemma {:induction false} CloseAllIsCompleteIff(before: seq<Step>, t: Thread, ids: seq<nat>)
    requires CanRun(INITIAL, before) && Enabled(Run(INITIAL, before), StartCloseAll(t, ids))
    ensures var s := Run(INITIAL, before);
      var started := Next(s, StartCloseAll(t, ids));
      (forall after :: QuietRun(started, after) ==> EverythingIsClosed(Run(started, after))) <==> NobodyOpening(s)
  {
    hide CanRun, Run, NobodyOpening, Closes;
    var s := Run(INITIAL, before);
    var started := Next(s, StartCloseAll(t, ids));
    ListingOpensNothing(s, t, ids);
    if NobodyOpening(s) {
      forall after | QuietRun(started, after) ensures EverythingIsClosed(Run(started, after)) {
        NoOpenerNoRegister(started, after);
        CloseAllClosesEverythingOnce(before, t, ids, after);
      }
    } else {
      var u := SomeOpener(started);
      var others := FinishOthers(started, u);
      var last := OpenerLeavesHandle(Run(started, others), u);
      RunJoin(started, others, last);
      assert QuietRun(started, others + last);
    }
  }

  lemma SomeOpener(s: State) returns (u: Thread)
    requires !NobodyOpening(s)
    ensures u in s.threads && IsOpener(s.threads[u])
  {
    u :| u in s.threads && IsOpener(s.threads[u]);
  }

  lemma ListingOpensNothing(s: State, t: Thread, ids: seq<nat>)
    requires Enabled(s, StartCloseAll(t, ids))
    ensures NobodyOpening(Next(s, StartCloseAll(t, ids))) <==> NobodyOpening(s)
  {
    var n := Next(s, StartCloseAll(t, ids));
    if !NobodyOpening(s) {
      var u := SomeOpener(s);
      assert u in n.threads && IsOpener(n.threads[u]);
    }
  }
}
