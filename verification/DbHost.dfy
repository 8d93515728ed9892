/** The database host as an object: the sections of internal/hostbridge/db.go that
    run under its mutex, and Close and CloseAll composed from them.  Each is
    proved against the section of the same name in the protocol. */
module DbHost {
  import opened Outcomes
  import opened DbProtocol

  /** A handle is shared by pointer: Close keeps using one it took out of the map. */
  class Handle {
    const db: Db
    var tx: Option<Tx>

    constructor (db: Db)
      ensures this.db == db && tx == None
    {
      this.db := db;
      tx := None;
    }

    function View(): Entry
      reads this
    {
      Entry(db, tx)
    }
  }

  class Host {
    var current: nat
    var handles: map<nat, Handle>
    /** The driver calls made so far, in order. */
    var log: seq<Event>

    ghost predicate Valid()
      reads this
    {
      && |handles| <= MAX_HANDLES
      && (forall id :: id in handles ==> 0 < id <= current)
      && forall i, j :: i in handles && j in handles && handles[i] == handles[j] ==> i == j
    }

    ghost function View(): Shared
      reads this, handles.Values
    {
      Shared(current, map id | id in handles :: handles[id].View(), log)
    }

    constructor ()
      ensures Valid() && View() == INITIAL.shared
    {
      current := 0;
      handles := map[];
      log := [];
    }

    /** The next id given to a handle no id has yet. */
    method AddHandle(h: Handle)
      requires Valid() && |handles| < 8 && h !in handles.Values
      modifies this`current, this`handles
      ensures Valid() && current == old(current) + 1
      ensures current !in old(handles) && handles == old(handles)[current := h]
      ensures View().handles == old(View()).handles[current := h.View()]
    {
      current := current + 1;
      handles := handles[current := h];
    }

    /** One driver call. */
    method Say(e: Event)
      requires Valid()
      modifies this`log
      ensures Valid() && View() == Record(old(View()), e)
    {
      log := log + [e];
      assert View().handles == old(View()).handles;
    }

    /** The locked end of Open, for a database that answered its ping. */
    method RegisterHandle(db: Db) returns (r: Result<nat, Code>)
      requires Valid()
      modifies this
      ensures Valid() && (View(), r) == Register(old(View()), db)
      ensures r.Ok? <==> |old(handles)| < 8
      ensures r.Ok? ==>
        && r.value == current == old(current) + 1 && r.value !in old(handles) && r.value in handles
        && handles == old(handles)[r.value := handles[r.value]] && handles[r.value].View() == Entry(db, None)
        && log == old(log) + [Issued(r.value, db)]
      ensures r.Err? ==> handles == old(handles) && current == old(current) && log == old(log) + [Closed(db)]
    {
      hide Valid;
      ViewKeys();
      if |handles| >= 8 {
        Say(Closed(db));
        return Err("too_many_database_handles");
      }
      var h := new Handle(db);
      AddHandle(h);
      Say(Issued(current, db));
      return Ok(current);
    }

    lemma ViewKeys()
      ensures View().handles.Keys == handles.Keys && |View().handles| == |handles|
    {
      assert |View().handles.Keys| == |View().handles| && |handles.Keys| == |handles|;
    }

    /** The locked start of Close. */
    method TakeHandle(id: nat) returns (state: Handle?)
      requires Valid()
      modifies this
      ensures Valid() && View() == Take(old(View()), id).0
      ensures state == if id in old(handles) then old(handles)[id] else null
      ensures handles == old(handles) - {id}
    {
      state := if id in handles then handles[id] else null;
      handles := handles - {id};
      assert View().handles == Take(old(View()), id).0.handles;
    }

    /** Close's driver calls on a handle it has taken, outside the mutex. */
    method Release(state: Handle)
      requires Valid() && state !in handles.Values
      modifies this`log
      ensures Valid() && handles == old(handles) && current == old(current)
      ensures View() == Record(Undo(old(View()), old(state.View())), Closed(state.db))
      ensures log == old(log) +
        (if state.tx.Some? then [Finished(state.db, state.tx.value, false)] else []) + [Closed(state.db)]
    {
      if state.tx.Some? { Say(Finished(state.db, state.tx.value, false)); }
      Say(Closed(state.db));
    }

    /** Close run without interference: the handle is gone, its transaction is
        rolled back, its database is closed, and the other handles are as before. */
    method Close(id: nat) returns (r: Result<(), Code>)
      requires Valid()
      modifies this
      ensures Valid() && handles == old(handles) - {id}
      ensures r == if id in old(handles) then Ok(()) else Err("invalid_database_handle")
      ensures View() == CloseOne(old(View()), id)
      ensures forall k :: k in handles ==> handles[k] == old(handles)[k]
    {
      var state := TakeHandle(id);
      if state == null {
        assert View().handles == old(View()).handles;
        return Err("invalid_database_handle");
      }
      assert state !in handles.Values;
      Release(state);
      return Ok(());
    }

    /** The ids under which handles are live, in the map's own order. */
    method ListIds() returns (ids: seq<nat>)
      ensures Lists(ids, handles.Keys)
    {
      ids := [];
      var left := handles.Keys;
      while left != {}
        invariant left <= handles.Keys
        invariant forall id :: id in handles.Keys ==> id in left || id in ids
        invariant forall i :: 0 <= i < |ids| ==> ids[i] !in left && ids[i] in handles.Keys
        invariant forall i, j :: 0 <= i < j < |ids| ==> ids[i] != ids[j]
        decreases |left|
      {
        var id :| id in left;
        ids := ids + [id];
        left := left - {id};
      }
    }

    /** CloseAll without interference closes the listed handles one after another. */
    method CloseAll() returns (ghost ids: seq<nat>)
      requires Valid()
      modifies this
      ensures Valid() && Lists(ids, old(View()).handles.Keys)
      ensures View() == CloseEach(old(View()), ids)
    {
      hide CloseOne, CloseEach, Lists, View, Valid;
      ViewKeys();
      var list := ListIds();
      ids := list;
      var n := 0;
      assert list[0..] == list;
      while n < |list|
        invariant n <= |list| && Valid()
        invariant CloseEach(View(), list[n..]) == CloseEach(old(View()), list)
      {
        NextToClose(View(), list, n);
        var r := Close(list[n]);
        n := n + 1;
      }
      assert list[n..] == [];
      NothingToClose(View());
    }

    method BeginTransaction(id: nat, began: Option<Tx>) returns (r: Result<(), Code>)
      requires Valid()
      modifies this`log, if id in handles then {handles[id]} else {}
      ensures Valid() && handles == old(handles) && (View(), r) == Begin(old(View()), id, began)
      ensures r.Ok? <==> id in handles && old(handles[id].tx).None? && began.Some?
      ensures r.Ok? ==> handles[id].tx == began && log == old(log) + [Begun(handles[id].db, began.value)]
      ensures r.Err? ==> log == old(log)
      ensures r == Err("invalid_database_handle") <==> id !in handles
      ensures r == Err("transaction_already_open") <==> id in handles && old(handles[id].tx).Some?
    {
      if id !in handles { return Err("invalid_database_handle"); }
      var state := handles[id];
      if state.tx.Some? { return Err("transaction_already_open"); }
      if began.None? { return Err("transaction_begin_failed"); }
      state.tx := began;
      log := log + [Begun(state.db, began.value)];
      assert View().handles == Begin(old(View()), id, began).0.handles;
      return Ok(());
    }

    /** The driver is told to commit. */
    method Commit(id: nat, driverOk: bool) returns (r: Result<(), Code>)
      requires Valid()
      modifies this`log, if id in handles then {handles[id]} else {}
      ensures Valid() && handles == old(handles)
      ensures (View(), r) == Finish(old(View()), id, true, driverOk)
      ensures id in handles && old(handles[id].tx).Some? ==>
        log == old(log) + [Finished(handles[id].db, old(handles[id].tx.value), true)]
    {
      r := FinishTransaction(id, true, driverOk);
    }

    /** The driver is told to roll back. */
    method Rollback(id: nat, driverOk: bool) returns (r: Result<(), Code>)
      requires Valid()
      modifies this`log, if id in handles then {handles[id]} else {}
      ensures Valid() && handles == old(handles)
      ensures (View(), r) == Finish(old(View()), id, false, driverOk)
      ensures id in handles && old(handles[id].tx).Some? ==>
        log == old(log) + [Finished(handles[id].db, old(handles[id].tx.value), false)]
    {
      r := FinishTransaction(id, false, driverOk);
    }

    /** The common part of Commit and Rollback. */
    method FinishTransaction(id: nat, commit: bool, driverOk: bool) returns (r: Result<(), Code>)
      requires Valid()
      modifies this`log, if id in handles then {handles[id]} else {}
      ensures Valid() && handles == old(handles)
      ensures (View(), r) == Finish(old(View()), id, commit, driverOk)
      ensures id in handles && old(handles[id].tx).Some? ==>
        && handles[id].tx.None? && (r.Ok? <==> driverOk)
        && log == old(log) + [Finished(handles[id].db, old(handles[id].tx.value), commit)]
      ensures id !in handles || old(handles[id].tx).None? ==>
        r == Err("no_active_transaction") && log == old(log)
    {
      if id !in handles || handles[id].tx.None? { return Err("no_active_transaction"); }
      var state := handles[id];
      var tx := state.tx.value;
      state.tx := None;
      log := log + [Finished(state.db, tx, commit)];
      assert View().handles == Finish(old(View()), id, commit, driverOk).0.handles;
      if !driverOk { return Err("transaction_finish_failed"); }
      return Ok(());
    }

    /** Exec on the open transaction, or on the database when there is none. */
    method Execute(id: nat, affected: Option<int>) returns (r: Result<int, Code>)
      requires Valid()
      modifies this`log
      ensures Valid() && handles == old(handles) && (View(), r) == Exec(old(View()), id, affected)
      ensures id in handles ==> log == old(log) + [Executed(handles[id].db, handles[id].tx)]
      ensures id !in handles ==> log == old(log) && r == Err("invalid_database_handle")
      ensures id in handles && affected.Some? ==> r == Ok(affected.value)
      ensures id in handles && affected.None? ==> r == Err("database_execution_failed")
    {
      if id !in handles { return Err("invalid_database_handle"); }
      Say(Executed(handles[id].db, handles[id].tx));
      if affected.None? { return Err("database_execution_failed"); }
      return Ok(affected.value);
    }
  }

  // ------------------------------------------- the object and the protocol

  lemma NothingToClose(h: Shared)
    ensures CloseEach(h, []) == h
  {
  }

  lemma NextToClose(h: Shared, ids: seq<nat>, n: nat)
    requires n < |ids|
    ensures CloseEach(h, ids[n..]) == CloseEach(CloseOne(h, ids[n]), ids[n + 1..])
  {
    assert ids[n..][1..] == ids[n + 1..];
  }

  lemma CloseOneCloses(h: Shared, id: nat)
    requires id in h.handles
    ensures CloseOne(h, id).handles == h.handles - {id} && h.log <= CloseOne(h, id).log
    ensures forall db :: Closed(db) in CloseOne(h, id).log[|h.log|..] <==> db == h.handles[id].db
  {
    var e := h.handles[id];
    var said := CloseOne(h, id).log[|h.log|..];
    assert said == (if e.tx.Some? then [Finished(e.db, e.tx.value, false)] else []) + [Closed(e.db)];
  }

  ghost predicate LiveDb(h: Shared, db: Db) {
    exists id :: id in h.handles && h.handles[id].db == db
  }

  /** Closing each listed handle leaves none and closes exactly their databases. */
  lemma {:induction false} CloseEachEmpties(h: Shared, ids: seq<nat>)
    requires Lists(ids, h.handles.Keys)
    ensures CloseEach(h, ids).handles == map[] && h.log <= CloseEach(h, ids).log
    ensures forall db :: Closed(db) in CloseEach(h, ids).log[|h.log|..] <==> LiveDb(h, db)
    decreases |ids|
  {
    hide CloseOne, LiveDb, Lists;
    if ids == [] {
      NothingListed(h);
    } else {
      var id, h' := ids[0], CloseOne(h, ids[0]);
      assert id in h.handles by { ListTail(ids, h.handles.Keys); }
      CloseOneCloses(h, id);
      ListTail(ids, h.handles.Keys);
      CloseEachEmpties(h', ids[1..]);
      var end := CloseEach(h, ids).log;
      assert end[|h.log|..] == h'.log[|h.log|..] + end[|h'.log|..];
      LiveWithout(h, h', id);
    }
  }

  lemma ListTail(ids: seq<nat>, keys: set<nat>)
    requires ids != [] && Lists(ids, keys)
    ensures ids[0] in keys && Lists(ids[1..], keys - {ids[0]})
  {
  }

  lemma NothingListed(h: Shared)
    requires Lists([], h.handles.Keys)
    ensures h.handles == map[] && forall db :: !LiveDb(h, db)
  {
    assert h.handles.Keys == {};
  }

  lemma LiveWithout(h: Shared, h': Shared, id: nat)
    requires id in h.handles && h'.handles == h.handles - {id}
    ensures forall db :: LiveDb(h, db) <==> LiveDb(h', db) || h.handles[id].db == db
  {
    forall db | LiveDb(h, db) ensures LiveDb(h', db) || h.handles[id].db == db {
      var k :| k in h.handles && h.handles[k].db == db;
      assert k != id ==> k in h'.handles;
    }
  }

  /** Close run without interference is a run of the protocol's own steps. */
  lemma UninterruptedClose(s: State, t: Thread, id: nat) returns (steps: seq<Step>)
    requires t !in s.threads
    ensures CanRun(s, steps) && Run(s, steps).threads == s.threads
    ensures Run(s, steps).shared == CloseOne(s.shared, id)
  {
    hide CanRun, Run;
    var rest := SweepRuns(Next(s, StartClose(t, id)), t);
    OneStep(s, StartClose(t, id), rest);
    NothingToClose(CloseOne(s.shared, id));
    steps := [StartClose(t, id)] + rest;
  }

  /** So is CloseAll: it comes to closing each listed handle in turn. */
  lemma UninterruptedCloseAll(s: State, t: Thread, ids: seq<nat>) returns (steps: seq<Step>)
    requires Enabled(s, StartCloseAll(t, ids))
    ensures steps != [] && steps[0] == StartCloseAll(t, ids)
    ensures CanRun(s, steps) && Run(s, steps).threads == s.threads
    ensures Run(s, steps).shared == CloseEach(s.shared, ids)
  {
    hide CanRun, Run;
    var rest := SweepRuns(Next(s, StartCloseAll(t, ids)), t);
    OneStep(s, StartCloseAll(t, ids), rest);
    steps := [StartCloseAll(t, ids)] + rest;
  }

  /** A sweeping call alone closes what it has to, and returns. */
  lemma {:induction false} SweepRuns(s: State, t: Thread) returns (steps: seq<Step>)
    requires t in s.threads && s.threads[t].Sweeping?
    ensures CanRun(s, steps)
    ensures Run(s, steps) == State(CloseEach(s.shared, s.threads[t].todo), s.threads - {t})
    decreases |s.threads[t].todo|
  {
    hide CanRun, Run, CloseOne;
    if s.threads[t].todo == [] {
      OneStep(s, Return(t), []);
      EmptyRun(Next(s, Return(t)));
      steps := [Return(t)] + [];
    } else {
      var first := SweepOne(s, t);
      var s' := Run(s, first);
      var rest := SweepRuns(s', t);
      RunJoin(s, first, rest);
      assert s'.threads - {t} == s.threads - {t};
      steps := first + rest;
    }
  }

  lemma EmptyRun(s: State)
    ensures CanRun(s, []) && Run(s, []) == s
  {
  }

  lemma SweepOne(s: State, t: Thread) returns (steps: seq<Step>)
    requires t in s.threads && s.threads[t].Sweeping? && s.threads[t].todo != []
    ensures CanRun(s, steps)
    ensures var todo := s.threads[t].todo;
      Run(s, steps) == State(CloseOne(s.shared, todo[0]), s.threads[t := Sweeping(todo[1..])])
  {
    hide CanRun, Run;
    var s1 := Next(s, TakeNext(t));
    if s1.threads[t].Holding? {
      var s2 := Next(s1, RollBackTaken(t));
      EmptyRun(Next(s2, CloseTaken(t)));
      OneStep(s2, CloseTaken(t), []);
      OneStep(s1, RollBackTaken(t), [CloseTaken(t)] + []);
      steps := [RollBackTaken(t)] + ([CloseTaken(t)] + []);
    } else {
      EmptyRun(s1);
      steps := [];
    }
    OneStep(s, TakeNext(t), steps);
    steps := [TakeNext(t)] + steps;
  }
}
