/** What each call of the database host tells the driver, and what it answers. */
module DbCalls {
  import opened Outcomes
  import opened DbProtocol

  // --------------------------------------------- what the driver is told

  predicate Has(s: State, id: nat, e: Entry) {
    id in s.shared.handles && s.shared.handles[id] == e
  }

  predicate Holds(s: State, t: Thread, pc: Pc) {
    t in s.threads && s.threads[t] == pc
  }

  predicate HasRoom(s: State) {
    |s.shared.handles| < 8
  }

  /** The steps that an event can come from.  A transaction is committed by Commit alone,
      on the handle that has it; it is rolled back by Rollback, or by Close for a handle
      it took.  A statement runs within the transaction of its handle. */
  predicate Warrants(s: State, step: Step, e: Event) {
    match e
    case Opened(db) => step.OpenDb? && step.db == db
    case Issued(id, db) => step.RegisterDb? && Holds(s, step.t, Pinged(db)) && HasRoom(s) && id == s.shared.current + 1
    case Begun(db, tx) => step.BeginTx? && Has(s, step.id, Entry(db, None)) && step.began == Some(tx)
    case Finished(db, tx, commit) =>
      || (step.FinishTx? && Has(s, step.id, Entry(db, Some(tx))) && step.commit == commit)
      || (step.RollBackTaken? && step.t in s.threads && s.threads[step.t].Holding?
          && s.threads[step.t].entry == Entry(db, Some(tx)) && !commit)
    case Executed(db, within) => step.ExecSql? && Has(s, step.id, Entry(db, within))
    case Closed(db) =>
      || (step.Ping? && !step.ok && Holds(s, step.t, Opening(db)))
      || (step.RegisterDb? && Holds(s, step.t, Pinged(db)) && !HasRoom(s))
      || (step.CloseTaken? && step.t in s.threads && s.threads[step.t].Closing? && s.threads[step.t].db == db)
  }

  /** The history after a step, in terms of what the step says. */
  ghost predicate Extends(log: seq<Event>, log': seq<Event>, e: Event) {
    log' == log + [e]
  }

  lemma LastIsOnly(log: seq<Event>, said: Event, e: Event)
    ensures Extends(log, log + [said], e) <==> said == e
    ensures !Extends(log, log, e)
  {
    assert (log + [said])[|log|] == said;
    assert Extends(log, log + [said], e) ==> (log + [e])[|log|] == said;
  }

  lemma SaidIsWarranted(s: State, step: Step, said: Event)
    requires Enabled(s, step) && Next(s, step).shared.log == s.shared.log + [said]
    ensures Warrants(s, step, said)
  {
    assert Next(s, step).shared.log[|s.shared.log|] == said;
  }

  lemma OneIsWarranted(s: State, step: Step, d: Event, e: Event)
    requires Warrants(s, step, d) && Warrants(s, step, e)
    ensures d == e
  {
  }

  lemma NothingIsSaid(s: State, step: Step, e: Event)
    requires Enabled(s, step) && Next(s, step).shared.log == s.shared.log
    ensures !Warrants(s, step, e)
  {
    assert |Next(s, step).shared.log| == |s.shared.log|;
  }

  lemma OneIsSaid(s: State, step: Step)
    requires Enabled(s, step)
    ensures var log, log' := s.shared.log, Next(s, step).shared.log;
      log' == log || (|log'| > |log| && log' == log + [log'[|log|]])
  {
  }

  /** A step adds an event to the history exactly when it warrants it, and never more than one. */
  lemma StepSaysIff(s: State, step: Step, e: Event)
    requires Enabled(s, step)
    ensures Extends(s.shared.log, Next(s, step).shared.log, e) <==> Warrants(s, step, e)
    ensures Next(s, step).shared.log == s.shared.log ||
      exists said :: Extends(s.shared.log, Next(s, step).shared.log, said)
  {
    hide Extends, Next, Warrants, Enabled;
    var log, log' := s.shared.log, Next(s, step).shared.log;
    OneIsSaid(s, step);
    if log' != log {
      var said := log'[|log|];
      LastIsOnly(log, said, e);
      LastIsOnly(log, said, said);
      SaidIsWarranted(s, step, said);
      if Warrants(s, step, e) { OneIsWarranted(s, step, said, e); }
    } else {
      LastIsOnly(log, e, e);
      NothingIsSaid(s, step, e);
    }
  }

  /** The `i`th step of a run warrants the event in the state it is taken in. */
  ghost predicate WarrantedAt(s: State, steps: seq<Step>, i: nat, e: Event)
    requires i < |steps|
  {
    CanRun(s, steps[..i]) && Warrants(Run(s, steps[..i]), steps[i], e)
  }

  ghost predicate Warranted(s: State, steps: seq<Step>, e: Event) {
    exists i :: 0 <= i < |steps| && WarrantedAt(s, steps, i, e)
  }

  lemma WarrantedNext(s: State, steps: seq<Step>, e: Event)
    requires steps != [] && CanRun(s, steps)
    ensures Warranted(s, steps, e) <==> Warrants(s, steps[0], e) || Warranted(Next(s, steps[0]), steps[1..], e)
  {
    hide Warrants, Next, Enabled;
    var s', rest := Next(s, steps[0]), steps[1..];
    assert steps[..0] == [] && WarrantedAt(s, steps, 0, e) == Warrants(s, steps[0], e);
    forall i | 0 <= i < |rest| ensures WarrantedAt(s, steps, i + 1, e) == WarrantedAt(s', rest, i, e) {
      assert steps[..i + 1][0] == steps[0] && steps[..i + 1][1..] == rest[..i];
    }
    if Warranted(s, steps, e) {
      var i :| 0 <= i < |steps| && WarrantedAt(s, steps, i, e);
      assert i > 0 ==> WarrantedAt(s', rest, i - 1, e);
    }
    if Warranted(s', rest, e) {
      var i :| 0 <= i < |rest| && WarrantedAt(s', rest, i, e);
      assert WarrantedAt(s, steps, i + 1, e);
    }
  }

  /** In every run: an event is in the history exactly when it was there before or some
      step warranted it.  So a transaction was committed if and only if someone called
      Commit on the handle that had it. */
  lemma {:induction false} HistoryIsWarranted(s: State, steps: seq<Step>, e: Event)
    requires CanRun(s, steps)
    ensures e in Run(s, steps).shared.log <==> e in s.shared.log || Warranted(s, steps, e)
    decreases |steps|
  {
    hide Warrants, Next, Enabled, Warranted;
    if steps == [] {
      assert !Warranted(s, steps, e) by { NothingWarranted(s, e); }
    } else {
      var s' := Next(s, steps[0]);
      HistoryIsWarranted(s', steps[1..], e);
      WarrantedNext(s, steps, e);
      StepSaysIff(s, steps[0], e);
      if s'.shared.log != s.shared.log {
        var said :| Extends(s.shared.log, s'.shared.log, said);
        assert said == e ==> Extends(s.shared.log, s'.shared.log, e);
      }
      if Warrants(s, steps[0], e) { assert s'.shared.log[|s.shared.log|] == e; }
    }
  }

  lemma NothingWarranted(s: State, e: Event)
    ensures !Warranted(s, [], e)
  {
  }

  /** A call that stays under the mutex can be made at any time, by a thread that is in no
      other call, and is then one step of a run: it has its effect and leaves the others be. */
  lemma LockedCalls(s: State, t: Thread, id: nat, commit: bool, driverOk: bool, affected: Option<int>)
    requires t !in s.threads
    ensures CanRun(s, [FinishTx(t, id, commit, driverOk)]) && CanRun(s, [ExecSql(t, id, affected)])
    ensures CanRun(s, [BeginTx(t, id, None)])
    ensures Run(s, [FinishTx(t, id, commit, driverOk)]) == s.(shared := Finish(s.shared, id, commit, driverOk).0)
    ensures Run(s, [ExecSql(t, id, affected)]) == s.(shared := Exec(s.shared, id, affected).0)
    ensures Run(s, [BeginTx(t, id, None)]) == s.(shared := Begin(s.shared, id, None).0)
  {
    OneCall(s, FinishTx(t, id, commit, driverOk));
    OneCall(s, ExecSql(t, id, affected));
    OneCall(s, BeginTx(t, id, None));
  }

  lemma OneCall(s: State, step: Step)
    requires Enabled(s, step)
    ensures CanRun(s, [step]) && Run(s, [step]) == Next(s, step)
  {
    hide Next, Enabled;
    assert [step][1..] == [];
    assert CanRun(Next(s, step), []) && Run(Next(s, step), []) == Next(s, step);
  }

  // ------------------------------------------------- what the handles become

  /** The entry that a step puts under an id. */
  predicate Puts(s: State, step: Step, id: nat, e: Entry) {
    || (step.RegisterDb? && Holds(s, step.t, Pinged(e.db)) && HasRoom(s) && id == s.shared.current + 1 && e.tx.None?)
    || (step.BeginTx? && step.id == id && Has(s, id, Entry(e.db, None)) && e.tx == step.began && e.tx.Some?)
    || (step.FinishTx? && step.id == id && id in s.shared.handles && s.shared.handles[id].tx.Some?
        && s.shared.handles[id].db == e.db && e.tx.None?)
  }

  predicate Removes(s: State, step: Step, id: nat) {
    step.TakeNext? && step.t in s.threads && s.threads[step.t].Sweeping? && s.threads[step.t].todo != []
    && s.threads[step.t].todo[0] == id
  }

  /** What is under an id after a step: what the step put there, or what was there, unless
      the step replaced or removed it. */
  lemma EntryIff(s: State, step: Step, id: nat, e: Entry)
    requires Enabled(s, step)
    ensures Has(Next(s, step), id, e) <==>
      Puts(s, step, id, e) || (Has(s, id, e) && !Removes(s, step, id) && forall other :: !Puts(s, step, id, other))
  {
    if step.RegisterDb? && HasRoom(s) && id == s.shared.current + 1 {
      assert Puts(s, step, id, Entry(s.threads[step.t].db, None));
    }
    if step.BeginTx? && step.id == id && id in s.shared.handles && s.shared.handles[id].tx.None? && step.began.Some? {
      assert Puts(s, step, id, Entry(s.shared.handles[id].db, step.began));
    }
    if step.FinishTx? && step.id == id && id in s.shared.handles && s.shared.handles[id].tx.Some? {
      assert Puts(s, step, id, Entry(s.shared.handles[id].db, None));
    }
  }

  // ------------------------------------------------------- what is answered

  /** Open answers the id under which the database now is, a new one, unless eight are in use. */
  lemma OpenAnswers(h: Shared, db: Db)
    requires forall id :: id in h.handles ==> id <= h.current
    ensures var (h', r) := Register(h, db);
      && (r.Ok? <==> |h.handles| < 8)
      && (r.Ok? ==>
            && r.value == h'.current && r.value > h.current && r.value !in h.handles
            && h'.handles == h.handles[r.value := Entry(db, None)])
      && (r.Err? ==> r.error == "too_many_database_handles" && h'.handles == h.handles && h'.current == h.current)
  {
  }

  lemma BeginAnswers(h: Shared, id: nat, began: Option<Tx>)
    ensures var r := Begin(h, id, began).1;
      && (r.Ok? <==> id in h.handles && h.handles[id].tx.None? && began.Some?)
      && (r == Err("invalid_database_handle") <==> id !in h.handles)
      && (r == Err("transaction_already_open") <==> id in h.handles && h.handles[id].tx.Some?)
      && (r == Err("transaction_begin_failed") <==> id in h.handles && h.handles[id].tx.None? && began.None?)
  {
  }

  lemma FinishAnswers(h: Shared, id: nat, commit: bool, driverOk: bool)
    ensures var r := Finish(h, id, commit, driverOk).1;
      && (r.Ok? <==> id in h.handles && h.handles[id].tx.Some? && driverOk)
      && (r == Err("no_active_transaction") <==> id !in h.handles || h.handles[id].tx.None?)
      && (r == Err("transaction_finish_failed") <==> id in h.handles && h.handles[id].tx.Some? && !driverOk)
  {
  }

  lemma ExecAnswers(h: Shared, id: nat, affected: Option<int>)
    ensures var r := Exec(h, id, affected).1;
      && (r == Err("invalid_database_handle") <==> id !in h.handles)
      && (r == Err("database_execution_failed") <==> id in h.handles && affected.None?)
      && (forall n :: r == Ok(n) <==> id in h.handles && affected == Some(n))
  {
  }

  /** A whole session on the id that Open answered, with nothing in between: each call
      succeeds, the driver is told just this, and the handles are as before. */
  lemma SessionRoundTrip(h: Shared, db: Db, tx: Tx, rows: int, commit: bool)
    requires |h.handles| < 8 && forall id :: id in h.handles ==> id <= h.current
    ensures var (h1, answer) := Register(h, db);
      && answer.Ok?
      && var id := answer.value;
         var (h2, began) := Begin(h1, id, Some(tx));
         var (h3, ran) := Exec(h2, id, Some(rows));
         var (h4, finished) := Finish(h3, id, commit, true);
         var h5 := CloseOne(h4, id);
         && began.Ok? && ran == Ok(rows) && finished.Ok?
         && h5.handles == h.handles && id > h.current && h5.current == id
         && h5.log == h.log +
              [Issued(id, db), Begun(db, tx), Executed(db, Some(tx)), Finished(db, tx, commit), Closed(db)]
  {
    var (h1, answer) := Register(h, db);
    var id := answer.value;
    var h2 := Begin(h1, id, Some(tx)).0;
    var h3 := Exec(h2, id, Some(rows)).0;
    var h4 := Finish(h3, id, commit, true).0;
    assert h4.handles - {id} == h.handles;
  }
}
