/** The database host as a protocol, and what every step keeps. */
module DbProtocol {
  import opened Outcomes

  /* internal/hostbridge/db.go: what each section under the mutex does to the shared
     state, what runs outside the mutex, and what every interleaving of calls keeps. */

  type Code = string

  type Db = nat
  type Tx = nat
  type Thread = nat

  const MAX_HANDLES := 8

  /** The calls made on the SQL driver and the handles given out, in order. */
  datatype Event =
    | Opened(db: Db)
    | Issued(id: nat, db: Db)
    | Begun(db: Db, tx: Tx)
    | Finished(db: Db, tx: Tx, commit: bool)
    | Executed(db: Db, within: Option<Tx>)
    | Closed(db: Db)

  datatype Entry = Entry(db: Db, tx: Option<Tx>)

  /** What the mutex guards, with the driver's history. */
  datatype Shared = Shared(current: nat, handles: map<nat, Entry>, log: seq<Event>)

  // --------------------------------------------- sections and driver calls

  function Record(h: Shared, e: Event): Shared {
    h.(log := h.log + [e])
  }

  /** The locked end of Open. */
  function Register(h: Shared, db: Db): (Shared, Result<nat, Code>) {
    if |h.handles| >= MAX_HANDLES then (Record(h, Closed(db)), Err("too_many_database_handles"))
    else
      var id := h.current + 1;
      (Shared(id, h.handles[id := Entry(db, None)], h.log + [Issued(id, db)]), Ok(id))
  }

  /** The locked start of Close. */
  function Take(h: Shared, id: nat): (Shared, Option<Entry>) {
    if id in h.handles then (h.(handles := h.handles - {id}), Some(h.handles[id])) else (h, None)
  }

  /** Close's rollback of a taken handle, outside the mutex. */
  function Undo(h: Shared, e: Entry): Shared {
    if e.tx.Some? then Record(h, Finished(e.db, e.tx.value, false)) else h
  }

  /** All of Close, when nothing comes between its steps. */
  function CloseOne(h: Shared, id: nat): Shared {
    var (h', taken) := Take(h, id);
    if taken.Some? then Record(Undo(h', taken.value), Closed(taken.value.db)) else h'
  }

  function CloseEach(h: Shared, ids: seq<nat>): Shared
    decreases |ids|
  {
    if ids == [] then h else CloseEach(CloseOne(h, ids[0]), ids[1..])
  }

  /** `began` is the driver's transaction, or nothing when it refused to begin one. */
  function Begin(h: Shared, id: nat, began: Option<Tx>): (Shared, Result<(), Code>) {
    if id !in h.handles then (h, Err("invalid_database_handle"))
    else if h.handles[id].tx.Some? then (h, Err("transaction_already_open"))
    else if began.None? then (h, Err("transaction_begin_failed"))
    else
      var db := h.handles[id].db;
      (Record(h, Begun(db, began.value)).(handles := h.handles[id := Entry(db, began)]), Ok(()))
  }

  /** Commit and Rollback; the transaction is forgotten whatever the driver answers. */
  function Finish(h: Shared, id: nat, commit: bool, driverOk: bool): (Shared, Result<(), Code>) {
    if id !in h.handles || h.handles[id].tx.None? then (h, Err("no_active_transaction"))
    else
      var e := h.handles[id];
      (Record(h, Finished(e.db, e.tx.value, commit)).(handles := h.handles[id := Entry(e.db, None)]),
       if driverOk then Ok(()) else Err("transaction_finish_failed"))
  }

  function Exec(h: Shared, id: nat, affected: Option<int>): (Shared, Result<int, Code>) {
    if id !in h.handles then (h, Err("invalid_database_handle"))
    else
      (Record(h, Executed(h.handles[id].db, h.handles[id].tx)),
       if affected.Some? then Ok(affected.value) else Err("database_execution_failed"))
  }

  // -------------------------------------------------------------- threads

  /** Where a call that leaves the mutex stands.  Close(id) sweeps the one id;
      CloseAll sweeps the ids it listed. */
  datatype Pc =
    | Opening(db: Db)
    | Pinged(db: Db)
    | Sweeping(todo: seq<nat>)
    | Holding(entry: Entry, todo: seq<nat>)
    | Closing(db: Db, todo: seq<nat>)

  datatype State = State(shared: Shared, threads: map<Thread, Pc>)

  datatype Step =
    | OpenDb(t: Thread, db: Db)
    | Ping(t: Thread, ok: bool)
    | RegisterDb(t: Thread)
    | StartClose(t: Thread, id: nat)
    | StartCloseAll(t: Thread, ids: seq<nat>)
    | TakeNext(t: Thread)
    | RollBackTaken(t: Thread)
    | CloseTaken(t: Thread)
    | Return(t: Thread)
    | BeginTx(t: Thread, id: nat, began: Option<Tx>)
    | FinishTx(t: Thread, id: nat, commit: bool, driverOk: bool)
    | ExecSql(t: Thread, id: nat, affected: Option<int>)

  const INITIAL := State(Shared(0, map[], []), map[])

  predicate Lists(ids: seq<nat>, keys: set<nat>) {
    && (forall i :: 0 <= i < |ids| ==> ids[i] in keys)
    && (forall k :: k in keys ==> k in ids)
    && forall i, j :: 0 <= i < j < |ids| ==> ids[i] != ids[j]
  }

  /** Databases and transactions the driver returns are new objects. */
  predicate Enabled(s: State, step: Step) {
    match step
    case OpenDb(t, db) => t !in s.threads && Opened(db) !in s.shared.log
    case Ping(t, ok) => t in s.threads && s.threads[t].Opening?
    case RegisterDb(t) => t in s.threads && s.threads[t].Pinged?
    case StartClose(t, id) => t !in s.threads
    case StartCloseAll(t, ids) => t !in s.threads && Lists(ids, s.shared.handles.Keys)
    case TakeNext(t) => t in s.threads && s.threads[t].Sweeping? && s.threads[t].todo != []
    case RollBackTaken(t) => t in s.threads && s.threads[t].Holding?
    case CloseTaken(t) => t in s.threads && s.threads[t].Closing?
    case Return(t) => t in s.threads && s.threads[t] == Sweeping([])
    case BeginTx(t, id, began) =>
      t !in s.threads && (began.Some? ==> forall e :: e in s.shared.log && e.Begun? ==> e.tx != began.value)
    case FinishTx(t, id, commit, driverOk) => t !in s.threads
    case ExecSql(t, id, affected) => t !in s.threads
  }

  function Next(s: State, step: Step): State
    requires Enabled(s, step)
  {
    var h, threads := s.shared, s.threads;
    match step
    case OpenDb(t, db) => State(Record(h, Opened(db)), threads[t := Opening(db)])
    case Ping(t, ok) =>
      if ok then s.(threads := threads[t := Pinged(threads[t].db)])
      else State(Record(h, Closed(threads[t].db)), threads - {t})
    case RegisterDb(t) => State(Register(h, threads[t].db).0, threads - {t})
    case StartClose(t, id) => s.(threads := threads[t := Sweeping([id])])
    case StartCloseAll(t, ids) => s.(threads := threads[t := Sweeping(ids)])
    case TakeNext(t) =>
      var todo := threads[t].todo;
      var (h', taken) := Take(h, todo[0]);
      State(h', threads[t := if taken.Some? then Holding(taken.value, todo[1..]) else Sweeping(todo[1..])])
    case RollBackTaken(t) =>
      State(Undo(h, threads[t].entry), threads[t := Closing(threads[t].entry.db, threads[t].todo)])
    case CloseTaken(t) => State(Record(h, Closed(threads[t].db)), threads[t := Sweeping(threads[t].todo)])
    case Return(t) => s.(threads := threads - {t})
    case BeginTx(t, id, began) => s.(shared := Begin(h, id, began).0)
    case FinishTx(t, id, commit, driverOk) => s.(shared := Finish(h, id, commit, driverOk).0)
    case ExecSql(t, id, affected) => s.(shared := Exec(h, id, affected).0)
  }

  ghost predicate CanRun(s: State, steps: seq<Step>)
    decreases |steps|
  {
    steps == [] || (Enabled(s, steps[0]) && CanRun(Next(s, steps[0]), steps[1..]))
  }

  ghost function Run(s: State, steps: seq<Step>): State
    requires CanRun(s, steps)
    decreases |steps|
  {
    if steps == [] then s else Run(Next(s, steps[0]), steps[1..])
  }

  lemma OneStep(s: State, step: Step, rest: seq<Step>)
    requires Enabled(s, step) && CanRun(Next(s, step), rest)
    ensures CanRun(s, [step] + rest) && Run(s, [step] + rest) == Run(Next(s, step), rest)
  {
    assert ([step] + rest)[1..] == rest;
  }

  lemma {:induction false} RunJoin(s: State, a: seq<Step>, b: seq<Step>)
    requires CanRun(s, a) && CanRun(Run(s, a), b)
    ensures CanRun(s, a + b) && Run(s, a + b) == Run(Run(s, a), b)
    decreases |a|
  {
    hide Next, Enabled;
    if a == [] {
      assert a + b == b;
    } else {
      RunJoin(Next(s, a[0]), a[1..], b);
      assert (a + b)[1..] == a[1..] + b;
    }
  }

  // ------------------------------------------------- what a history may be

  ghost predicate FinishedIn(log: seq<Event>, db: Db, tx: Tx) {
    Finished(db, tx, true) in log || Finished(db, tx, false) in log
  }

  ghost predicate Unfinished(log: seq<Event>, db: Db, tx: Tx) {
    Begun(db, tx) in log && !FinishedIn(log, db, tx)
  }

  ghost predicate OpenIn(log: seq<Event>, db: Db) {
    Opened(db) in log && Closed(db) !in log
  }

  /** What may follow a given history. */
  ghost predicate Admissible(log: seq<Event>, e: Event) {
    match e
    case Opened(db) => forall p :: p in log ==> p.db != db
    case Issued(id, db) =>
      && OpenIn(log, db)
      && (forall p :: p in log && p.Issued? ==> p.id < id && p.db != db)
    case Begun(db, tx) =>
      && OpenIn(log, db)
      && (forall p :: p in log && p.Begun? ==> p.tx != tx)
      && (forall other :: !Unfinished(log, db, other))
    case Finished(db, tx, commit) => OpenIn(log, db) && Unfinished(log, db, tx)
    case Executed(db, within) => OpenIn(log, db) && forall tx: Tx :: Unfinished(log, db, tx) <==> within == Some(tx)
    case Closed(db) => OpenIn(log, db) && forall tx :: !Unfinished(log, db, tx)
  }

  /** Every event was admissible when it happened. */
  ghost predicate Disciplined(log: seq<Event>) {
    forall i :: 0 <= i < |log| ==> Admissible(log[..i], log[i])
  }

  // ------------------------------------------------------------- ownership

  datatype Owner = ById(id: nat) | ByThread(t: Thread)

  /** A database not yet closed is held by one live handle or by one call in flight. */
  function Held(s: State, o: Owner): Option<Entry> {
    match o
    case ById(id) => if id in s.shared.handles then Some(s.shared.handles[id]) else None
    case ByThread(t) =>
      if t !in s.threads then None
      else match s.threads[t]
        case Opening(db) => Some(Entry(db, None))
        case Pinged(db) => Some(Entry(db, None))
        case Sweeping(todo) => None
        case Holding(entry, todo) => Some(entry)
        case Closing(db, todo) => Some(Entry(db, None))
  }

  ghost predicate Owned(s: State, db: Db) {
    exists o :: Held(s, o).Some? && Held(s, o).value.db == db
  }

  ghost predicate OwnersAgree(s: State) {
    forall o, p :: Held(s, o).Some? && Held(s, p).Some? && Held(s, o).value.db == Held(s, p).value.db ==> o == p
  }

  ghost predicate EntryAgrees(log: seq<Event>, e: Entry) {
    OpenIn(log, e.db) && forall tx: Tx :: Unfinished(log, e.db, tx) <==> e.tx == Some(tx)
  }

  ghost predicate EntriesAgree(s: State) {
    forall o :: Held(s, o).Some? ==> EntryAgrees(s.shared.log, Held(s, o).value)
  }

  ghost predicate NothingLost(s: State) {
    forall db :: Opened(db) in s.shared.log ==> Closed(db) in s.shared.log || Owned(s, db)
  }

  predicate OpeningDb(pc: Pc, db: Db) {
    (pc.Opening? || pc.Pinged?) && pc.db == db
  }

  ghost predicate IdsAgree(s: State) {
    && (forall id :: id in s.shared.handles ==> Issued(id, s.shared.handles[id].db) in s.shared.log)
    && (forall e :: e in s.shared.log && e.Issued? ==> 0 < e.id <= s.shared.current)
    && (forall t, e :: t in s.threads && e in s.shared.log && e.Issued? ==> !OpeningDb(s.threads[t], e.db))
  }

  /** Everything a history says concerns databases that were opened in it. */
  ghost predicate Grounded(log: seq<Event>) {
    forall e :: e in log ==> Opened(e.db) in log
  }

  ghost predicate Inv(s: State) {
    && OwnersAgree(s) && EntriesAgree(s) && NothingLost(s) && IdsAgree(s)
    && Grounded(s.shared.log) && Disciplined(s.shared.log)
  }

  // ----------------------------------------------- what every step keeps

  lemma AppendKeepsDiscipline(log: seq<Event>, e: Event)
    requires Disciplined(log) && Admissible(log, e)
    ensures Disciplined(log + [e])
  {
    forall i | 0 <= i <= |log| ensures Admissible((log + [e])[..i], (log + [e])[i]) {
      assert (log + [e])[..i] == log[..i];
      if i == |log| { assert log[..i] == log; }
    }
  }

  /** History only grows; what it says of other databases does not change. */
  lemma OtherDbUnaffected(log: seq<Event>, e: Event, entry: Entry)
    requires EntryAgrees(log, entry) && e.db != entry.db
    ensures EntryAgrees(log + [e], entry)
  {
    forall tx: Tx ensures Unfinished(log + [e], entry.db, tx) <==> Unfinished(log, entry.db, tx) {}
  }

  ghost predicate OwnersSettled(s: State) {
    OwnersAgree(s) && EntriesAgree(s) && NothingLost(s) && Grounded(s.shared.log) && Disciplined(s.shared.log)
  }

  /** A step that passes one database `db` from owner `o` (nobody, if new) to owner
      `p` (nobody, if closed), with at most one driver call, settles ownership again. */
  lemma Passes(s: State, n: State, o: Owner, p: Owner, db: Db, said: Option<Event>)
    requires OwnersSettled(s)
    requires forall r :: r != o && r != p ==> Held(n, r) == Held(s, r)
    requires o != p ==> Held(n, o).None? && Held(s, p).None?
    requires if Held(s, o).Some? then Held(s, o).value.db == db else !Owned(s, db)
    requires Held(n, p).Some? ==> Held(n, p).value.db == db && EntryAgrees(n.shared.log, Held(n, p).value)
    requires Held(n, p).None? ==> Closed(db) in n.shared.log
    requires n.shared.log == s.shared.log + if said.Some? then [said.value] else []
    requires said.Some? ==> said.value.db == db && Admissible(s.shared.log, said.value)
    ensures OwnersSettled(n)
  {
    hide Held, Admissible, Disciplined, EntryAgrees;
    if said.Some? { AppendKeepsDiscipline(s.shared.log, said.value); }
    else { assert n.shared.log == s.shared.log; }
    assert OwnersAgree(n) by { PassesOwners(s, n, o, p, db); }
    assert EntriesAgree(n) by { PassesEntries(s, n, o, p, db, said); }
    assert NothingLost(n) by { PassesLosesNothing(s, n, o, p, db, said); }
    assert Grounded(n.shared.log) by {
      assert said.Some? ==> Opened(db) in n.shared.log by { SaidIsOpened(s.shared.log, db, said); }
    }
  }

  lemma SaidIsOpened(log: seq<Event>, db: Db, said: Option<Event>)
    requires said.Some? ==> said.value.db == db && Admissible(log, said.value)
    ensures said.Some? ==> Opened(db) in log || said.value == Opened(db)
  {
  }

  lemma PassesOwners(s: State, n: State, o: Owner, p: Owner, db: Db)
    requires OwnersAgree(s)
    requires forall r :: r != o && r != p ==> Held(n, r) == Held(s, r)
    requires o != p ==> Held(n, o).None?
    requires if Held(s, o).Some? then Held(s, o).value.db == db else !Owned(s, db)
    requires Held(n, p).Some? ==> Held(n, p).value.db == db
    ensures OwnersAgree(n)
  {
    hide Held;
    forall q, r | q != r && Held(n, q).Some? && Held(n, r).Some?
      ensures Held(n, q).value.db != Held(n, r).value.db
    {
      assert q != p ==> Held(s, q) == Held(n, q);
      assert r != p ==> Held(s, r) == Held(n, r);
    }
  }

  lemma PassesEntries(s: State, n: State, o: Owner, p: Owner, db: Db, said: Option<Event>)
    requires OwnersAgree(s) && EntriesAgree(s)
    requires forall r :: r != o && r != p ==> Held(n, r) == Held(s, r)
    requires o != p ==> Held(n, o).None?
    requires if Held(s, o).Some? then Held(s, o).value.db == db else !Owned(s, db)
    requires Held(n, p).Some? ==> EntryAgrees(n.shared.log, Held(n, p).value)
    requires n.shared.log == s.shared.log + if said.Some? then [said.value] else []
    requires said.Some? ==> said.value.db == db
    ensures EntriesAgree(n)
  {
    hide Held, EntryAgrees;
    if said.None? { assert n.shared.log == s.shared.log; }
    forall r | Held(n, r).Some? ensures EntryAgrees(n.shared.log, Held(n, r).value) {
      if r != p {
        assert Held(s, r) == Held(n, r);
        assert Held(s, r).value.db != db;
        if said.Some? { OtherDbUnaffected(s.shared.log, said.value, Held(s, r).value); }
      }
    }
  }

  lemma PassesLosesNothing(s: State, n: State, o: Owner, p: Owner, db: Db, said: Option<Event>)
    requires NothingLost(s) && Grounded(s.shared.log)
    requires forall r :: r != o && r != p ==> Held(n, r) == Held(s, r)
    requires o != p ==> Held(s, p).None?
    requires Held(s, o).Some? ==> Held(s, o).value.db == db
    requires Held(n, p).Some? ==> Held(n, p).value.db == db
    requires Held(n, p).None? ==> Closed(db) in n.shared.log
    requires n.shared.log == s.shared.log + if said.Some? then [said.value] else []
    requires said.Some? ==> said.value.db == db
    ensures NothingLost(n)
  {
    hide Held;
    var log, log' := s.shared.log, n.shared.log;
    forall d | Opened(d) in log' ensures Closed(d) in log' || Owned(n, d) {
      if d == db {
        if Held(n, p).Some? { assert Owned(n, d); }
      } else {
        assert Opened(d) in log;
        if Closed(d) !in log {
          var r :| Held(s, r).Some? && Held(s, r).value.db == d;
          assert Held(n, r) == Held(s, r);
        }
      }
    }
  }

  lemma FreshIsUnowned(s: State, db: Db)
    requires EntriesAgree(s) && Opened(db) !in s.shared.log
    ensures !Owned(s, db)
  {
  }

  lemma OpenDbKeeps(s: State, t: Thread, db: Db)
    requires Inv(s) && Enabled(s, OpenDb(t, db))
    ensures Inv(Next(s, OpenDb(t, db)))
  {
    hide Disciplined, OwnersAgree, EntriesAgree, NothingLost;
    var n := Next(s, OpenDb(t, db));
    FreshIsUnowned(s, db);
    Passes(s, n, ByThread(t), ByThread(t), db, Some(Opened(db)));
  }

  /** What a driver call does to the standing of its own database. */
  lemma OwnEntryAfter(log: seq<Event>, entry: Entry, e: Event)
    requires EntryAgrees(log, entry) && e.db == entry.db && Admissible(log, e) && Disciplined(log)
    ensures e.Issued? || e.Executed? ==> EntryAgrees(log + [e], entry)
    ensures e.Begun? ==> EntryAgrees(log + [e], Entry(entry.db, Some(e.tx)))
    ensures e.Finished? ==> EntryAgrees(log + [e], Entry(entry.db, None))
  {
    var log' := log + [e];
    forall tx: Tx
      ensures Unfinished(log', e.db, tx) <==>
        if e.Begun? && tx == e.tx then true
        else if e.Finished? && tx == e.tx then false
        else Unfinished(log, e.db, tx)
    {
      FinishedWasBegun(log, e.db, tx);
    }
  }

  lemma FinishedWasBegun(log: seq<Event>, db: Db, tx: Tx)
    requires Disciplined(log)
    ensures FinishedIn(log, db, tx) ==> Begun(db, tx) in log
  {
    if FinishedIn(log, db, tx) {
      var commit :| Finished(db, tx, commit) in log;
      var i :| 0 <= i < |log| && log[i] == Finished(db, tx, commit);
      assert Admissible(log[..i], log[i]);
    }
  }

  /** A step that moves no database and calls no driver. */
  lemma Unmoved(s: State, n: State)
    requires OwnersSettled(s) && n.shared.log == s.shared.log
    requires forall o :: Held(n, o) == Held(s, o)
    ensures OwnersSettled(n)
  {
    hide Held, EntryAgrees, Disciplined;
    assert OwnersAgree(n);
    assert EntriesAgree(n);
    assert NothingLost(n) by {
      forall db | Opened(db) in n.shared.log ensures Closed(db) in n.shared.log || Owned(n, db) {
        if Owned(s, db) {
          var o :| Held(s, o).Some? && Held(s, o).value.db == db;
          assert Held(n, o) == Held(s, o);
        }
      }
    }
  }

  lemma PingKeeps(s: State, t: Thread, ok: bool)
    requires Inv(s) && Enabled(s, Ping(t, ok))
    ensures Inv(Next(s, Ping(t, ok)))
  {
    hide Disciplined, OwnersAgree, NothingLost, Grounded;
    var db := s.threads[t].db;
    assert Held(s, ByThread(t)) == Some(Entry(db, None));
    var said := if ok then None else Some(Closed(db));
    Passes(s, Next(s, Ping(t, ok)), ByThread(t), ByThread(t), db, said);
  }

  lemma OneOpener(s: State, t: Thread, db: Db)
    requires OwnersAgree(s) && t in s.threads && OpeningDb(s.threads[t], db)
    ensures forall u :: u in s.threads && u != t ==> !OpeningDb(s.threads[u], db)
  {
    forall u | u in s.threads && u != t ensures !OpeningDb(s.threads[u], db) {
      assert Held(s, ByThread(t)).value.db == db;
      assert OpeningDb(s.threads[u], db) ==> Held(s, ByThread(u)) == Some(Entry(db, None));
    }
  }

  lemma RegisterKeeps(s: State, t: Thread)
    requires Inv(s) && Enabled(s, RegisterDb(t))
    ensures Inv(Next(s, RegisterDb(t)))
  {
    hide Disciplined, OwnersAgree, NothingLost, Grounded;
    var n := Next(s, RegisterDb(t));
    var db := s.threads[t].db;
    assert Held(s, ByThread(t)) == Some(Entry(db, None));
    if |s.shared.handles| >= MAX_HANDLES {
      Passes(s, n, ByThread(t), ByThread(t), db, Some(Closed(db)));
    } else {
      var id := s.shared.current + 1;
      OneOpener(s, t, db);
      OwnEntryAfter(s.shared.log, Entry(db, None), Issued(id, db));
      Passes(s, n, ByThread(t), ById(id), db, Some(Issued(id, db)));
    }
  }

  lemma StartKeeps(s: State, t: Thread, todo: seq<nat>)
    requires Inv(s) && t !in s.threads
    ensures Inv(s.(threads := s.threads[t := Sweeping(todo)]))
  {
    hide Disciplined, OwnersAgree, NothingLost, Grounded;
    Unmoved(s, s.(threads := s.threads[t := Sweeping(todo)]));
  }

  lemma ReturnKeeps(s: State, t: Thread)
    requires Inv(s) && Enabled(s, Return(t))
    ensures Inv(Next(s, Return(t)))
  {
    hide Disciplined, OwnersAgree, NothingLost, Grounded;
    Unmoved(s, Next(s, Return(t)));
  }

  lemma TakeKeeps(s: State, t: Thread)
    requires Inv(s) && Enabled(s, TakeNext(t))
    ensures Inv(Next(s, TakeNext(t)))
  {
    hide Disciplined, OwnersAgree, NothingLost, Grounded;
    var n := Next(s, TakeNext(t));
    var id := s.threads[t].todo[0];
    if id in s.shared.handles {
      Passes(s, n, ById(id), ByThread(t), s.shared.handles[id].db, None);
    } else {
      Unmoved(s, n);
    }
  }

  lemma RollBackKeeps(s: State, t: Thread)
    requires Inv(s) && Enabled(s, RollBackTaken(t))
    ensures Inv(Next(s, RollBackTaken(t)))
  {
    hide Disciplined, OwnersAgree, NothingLost, Grounded;
    var n := Next(s, RollBackTaken(t));
    var e := s.threads[t].entry;
    assert Held(s, ByThread(t)) == Some(e);
    if e.tx.Some? {
      var said := Finished(e.db, e.tx.value, false);
      OwnEntryAfter(s.shared.log, e, said);
      Passes(s, n, ByThread(t), ByThread(t), e.db, Some(said));
    } else {
      Passes(s, n, ByThread(t), ByThread(t), e.db, None);
    }
  }

  lemma CloseKeeps(s: State, t: Thread)
    requires Inv(s) && Enabled(s, CloseTaken(t))
    ensures Inv(Next(s, CloseTaken(t)))
  {
    hide Disciplined, OwnersAgree, NothingLost, Grounded;
    var db := s.threads[t].db;
    assert Held(s, ByThread(t)) == Some(Entry(db, None));
    Passes(s, Next(s, CloseTaken(t)), ByThread(t), ByThread(t), db, Some(Closed(db)));
  }

  lemma BeginKeeps(s: State, t: Thread, id: nat, began: Option<Tx>)
    requires Inv(s) && Enabled(s, BeginTx(t, id, began))
    ensures Inv(Next(s, BeginTx(t, id, began)))
  {
    hide Disciplined, OwnersAgree, NothingLost, Grounded;
    if id in s.shared.handles && s.shared.handles[id].tx.None? && began.Some? {
      var e := s.shared.handles[id];
      assert Held(s, ById(id)) == Some(e);
      var said := Begun(e.db, began.value);
      OwnEntryAfter(s.shared.log, e, said);
      Passes(s, Next(s, BeginTx(t, id, began)), ById(id), ById(id), e.db, Some(said));
    }
  }

  lemma FinishKeeps(s: State, t: Thread, id: nat, commit: bool, driverOk: bool)
    requires Inv(s) && Enabled(s, FinishTx(t, id, commit, driverOk))
    ensures Inv(Next(s, FinishTx(t, id, commit, driverOk)))
  {
    hide Disciplined, OwnersAgree, NothingLost, Grounded;
    if id in s.shared.handles && s.shared.handles[id].tx.Some? {
      var e := s.shared.handles[id];
      assert Held(s, ById(id)) == Some(e);
      var said := Finished(e.db, e.tx.value, commit);
      OwnEntryAfter(s.shared.log, e, said);
      Passes(s, Next(s, FinishTx(t, id, commit, driverOk)), ById(id), ById(id), e.db, Some(said));
    }
  }

  lemma ExecKeeps(s: State, t: Thread, id: nat, affected: Option<int>)
    requires Inv(s) && Enabled(s, ExecSql(t, id, affected))
    ensures Inv(Next(s, ExecSql(t, id, affected)))
  {
    hide Disciplined, OwnersAgree, NothingLost, Grounded;
    if id in s.shared.handles {
      var e := s.shared.handles[id];
      assert Held(s, ById(id)) == Some(e);
      var said := Executed(e.db, e.tx);
      OwnEntryAfter(s.shared.log, e, said);
      Passes(s, Next(s, ExecSql(t, id, affected)), ById(id), ById(id), e.db, Some(said));
    }
  }

  /** Every atomic step of every call keeps the invariant. */
  lemma StepKeepsInvariant(s: State, step: Step)
    requires Inv(s) && Enabled(s, step)
    ensures Inv(Next(s, step))
  {
    hide Inv;
    match step
    case OpenDb(t, db) => OpenDbKeeps(s, t, db);
    case Ping(t, ok) => PingKeeps(s, t, ok);
    case RegisterDb(t) => RegisterKeeps(s, t);
    case StartClose(t, id) => StartKeeps(s, t, [id]);
    case StartCloseAll(t, ids) => StartKeeps(s, t, ids);
    case TakeNext(t) => TakeKeeps(s, t);
    case RollBackTaken(t) => RollBackKeeps(s, t);
    case CloseTaken(t) => CloseKeeps(s, t);
    case Return(t) => ReturnKeeps(s, t);
    case BeginTx(t, id, began) => BeginKeeps(s, t, id, began);
    case FinishTx(t, id, commit, driverOk) => FinishKeeps(s, t, id, commit, driverOk);
    case ExecSql(t, id, affected) => ExecKeeps(s, t, id, affected);
  }

  /** Only RegisterDb adds a handle, and it looks at how many there are. */
  lemma StepKeepsBound(s: State, step: Step)
    requires |s.shared.handles| <= MAX_HANDLES && Enabled(s, step)
    ensures |Next(s, step).shared.handles| <= MAX_HANDLES
  {
    var after := Next(s, step).shared.handles;
    if !step.RegisterDb? {
      assert after.Keys <= s.shared.handles.Keys;
      SubsetIsNoLarger(after.Keys, s.shared.handles.Keys);
    }
  }

  lemma {:induction false} SubsetIsNoLarger(a: set<nat>, b: set<nat>)
    requires a <= b
    ensures |a| <= |b|
  {
    if a != {} {
      var x :| x in a;
      SubsetIsNoLarger(a - {x}, b - {x});
    }
  }

  /** So does every interleaving of such steps. */
  lemma {:induction false} RunKeepsInvariant(s: State, steps: seq<Step>)
    requires Inv(s) && CanRun(s, steps)
    ensures Inv(Run(s, steps))
    decreases |steps|
  {
    hide Inv, Next, Enabled;
    if steps != [] {
      StepKeepsInvariant(s, steps[0]);
      RunKeepsInvariant(Next(s, steps[0]), steps[1..]);
    }
  }

  /** And no interleaving leaves more than eight live handles. */
  lemma {:induction false} RunKeepsBound(s: State, steps: seq<Step>)
    requires |s.shared.handles| <= MAX_HANDLES && CanRun(s, steps)
    ensures |Run(s, steps).shared.handles| <= MAX_HANDLES
    decreases |steps|
  {
    hide Next, Enabled;
    if steps != [] {
      StepKeepsBound(s, steps[0]);
      RunKeepsBound(Next(s, steps[0]), steps[1..]);
    }
  }
}
