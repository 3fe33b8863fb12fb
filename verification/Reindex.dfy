/** The vector index: two stores written in a fixed order by a process that can be killed
    between any two writes, and the reindex that resumes the work. */
module Reindex {
  import EventLog

  type EventId = EventLog.EventId
  type Model = string
  type Vec = seq<real>

  /** The active embedder; it is deterministic. */
  datatype Embedder = Embedder(model: Model, embed: string -> Vec)

  /** The events table, the vector collection, and events_vec_meta. */
  datatype Db = Db(events: map<EventId, string>, coll: map<EventId, Vec>, meta: map<EventId, Model>)

  /** A process at work: it survives `left` more writes. */
  datatype Proc = Proc(db: Db, left: nat, alive: bool)

  function Write(s: Proc, db: Db): Proc {
    if !s.alive then s
    else if s.left == 0 then s.(alive := false)
    else Proc(db, s.left - 1, true)
  }

  function PutVec(s: Proc, id: EventId, vec: Vec): Proc {
    Write(s, s.db.(coll := s.db.coll[id := vec]))
  }

  function PutMeta(s: Proc, id: EventId, model: Model): Proc {
    Write(s, s.db.(meta := s.db.meta[id := model]))
  }

  /** Upsert: the vector first, then the meta row. */
  function Upserted(s: Proc, id: EventId, vec: Vec, model: Model): Proc {
    PutMeta(PutVec(s, id, vec), id, model)
  }

  /** Delete: the vector first, then the meta row. */
  function Deleted(s: Proc, id: EventId): Proc {
    var gone := Write(s, s.db.(coll := s.db.coll - {id}));
    Write(gone, gone.db.(meta := gone.db.meta - {id}))
  }

  /** HasEvent asks the meta table only. */
  predicate HasEvent(db: Db, id: EventId) {
    id in db.meta
  }

  predicate Current(em: Embedder, db: Db, id: EventId) {
    id in db.meta && db.meta[id] == em.model && HasEvent(db, id)
  }

  function ReindexOne(em: Embedder, s: Proc, id: EventId, command: string): Proc {
    if Current(em, s.db, id) then s
    else
      var purged := if id in s.db.meta && s.db.meta[id] != em.model then Deleted(s, id) else s;
      PutMeta(Upserted(purged, id, em.embed(command), em.model), id, em.model)
  }

  /** The loop over the pending rows, with its count. A killed process counts nothing more. */
  function ReindexAll(em: Embedder, s: Proc, pending: seq<(EventId, string)>): (Proc, nat)
    decreases |pending|
  {
    if pending == [] || !s.alive then (s, 0)
    else
      var one := ReindexOne(em, s, pending[0].0, pending[0].1);
      var rest := ReindexAll(em, one, pending[1..]);
      (rest.0, rest.1 + if Current(em, s.db, pending[0].0) || !one.alive then 0 else 1)
  }

  lemma AllStep(em: Embedder, s: Proc, pending: seq<(EventId, string)>)
    requires pending != [] && s.alive
    ensures var one := ReindexOne(em, s, pending[0].0, pending[0].1);
      var rest := ReindexAll(em, one, pending[1..]);
      ReindexAll(em, s, pending) == (rest.0, rest.1 + if Current(em, s.db, pending[0].0) || !one.alive then 0 else 1)
  {
  }

  /** pending lists exactly the untainted events, each once, in some order. */
  ghost predicate Pending(db: Db, pending: seq<(EventId, string)>) {
    && (forall i, j :: 0 <= i < j < |pending| ==> pending[i].0 != pending[j].0)
    && (forall p :: p in pending ==> p.0 in db.events && db.events[p.0] == p.1)
    && (forall id :: id in db.events && db.events[id] != EventLog.REDACTED_TAINTED <==>
          exists i :: 0 <= i < |pending| && pending[i].0 == id)
  }

  /** The hook at the end of Append, for an event whose row has just been committed. */
  function Appended(em: Embedder, s: Proc, id: EventId, command: string): Proc {
    var s1 := s.(db := s.db.(events := s.db.events[id := command]));
    if command == EventLog.REDACTED_TAINTED then s1 else Upserted(s1, id, em.embed(command), em.model)
  }

  // ---- the process as it runs ----

  class Worker {
    const em: Embedder
    var s: Proc

    constructor (em: Embedder, s: Proc)
      ensures this.em == em && this.s == s
    {
      this.em, this.s := em, s;
    }

    /** One durable write, unless the process is killed first. */
    method Commit(db: Db)
      modifies this
      ensures s == Write(old(s), db)
    {
      if s.alive {
        if s.left == 0 {
          s := s.(alive := false);
        } else {
          s := Proc(db, s.left - 1, true);
        }
      }
    }

    method Upsert(id: EventId, vec: Vec, model: Model)
      modifies this
      ensures s == Upserted(old(s), id, vec, model)
    {
      Commit(s.db.(coll := s.db.coll[id := vec]));
      Commit(s.db.(meta := s.db.meta[id := model]));
    }

    method Delete(id: EventId)
      modifies this
      ensures s == Deleted(old(s), id)
    {
      Commit(s.db.(coll := s.db.coll - {id}));
      Commit(s.db.(meta := s.db.meta - {id}));
    }

    method SelectPending() returns (pending: seq<(EventId, string)>)
      ensures Pending(s.db, pending)
    {
      pending := [];
      var todo := s.db.events.Keys;
      while todo != {}
        invariant todo <= s.db.events.Keys
        invariant forall i, j :: 0 <= i < j < |pending| ==> pending[i].0 != pending[j].0
        invariant forall p :: p in pending ==> p.0 in s.db.events && p.0 !in todo && s.db.events[p.0] == p.1
        invariant forall id :: id in s.db.events && id !in todo && s.db.events[id] != EventLog.REDACTED_TAINTED <==>
                    exists i :: 0 <= i < |pending| && pending[i].0 == id
        decreases todo
      {
        var id :| id in todo;
        todo := todo - {id};
        if s.db.events[id] != EventLog.REDACTED_TAINTED {
          ghost var before := pending;
          pending := pending + [(id, s.db.events[id])];
          assert forall i :: 0 <= i < |before| ==> before[i] in before && pending[i] == before[i];
          assert pending[|before|].0 == id;
        }
      }
    }

    /** One turn of the loop of Reindex. */
    method ReindexRow(id: EventId, command: string) returns (counted: nat)
      requires s.alive
      modifies this
      ensures s == ReindexOne(em, old(s), id, command)
      ensures counted == if Current(em, old(s).db, id) || !s.alive then 0 else 1
    {
      if id in s.db.meta && s.db.meta[id] == em.model && HasEvent(s.db, id) {
        return 0;
      }
      if id in s.db.meta && s.db.meta[id] != em.model {
        Delete(id);
      }
      Upsert(id, em.embed(command), em.model);
      Commit(s.db.(meta := s.db.meta[id := em.model]));
      counted := if s.alive then 1 else 0;
    }

    /** The loop of Reindex. A killed process stops; what it wrote stays. */
    method ReindexRows(rows: seq<(EventId, string)>) returns (count: nat)
      modifies this
      ensures (s, count) == ReindexAll(em, old(s), rows)
    {
      count := 0;
      var i := 0;
      while i < |rows| && s.alive
        invariant 0 <= i <= |rows|
        invariant var all := ReindexAll(em, old(s), rows);
                  var rest := ReindexAll(em, s, rows[i..]);
                  all == (rest.0, count + rest.1)
      {
        ghost var before := s;
        AllStep(em, before, rows[i..]);
        assert rows[i..][1..] == rows[i + 1..];
        var counted := ReindexRow(rows[i].0, rows[i].1);
        count := count + counted;
        i := i + 1;
      }
    }

    /** Reindex. */
    method Run() returns (count: nat, ghost pending: seq<(EventId, string)>)
      modifies this
      ensures Pending(old(s).db, pending)
      ensures (s, count) == ReindexAll(em, old(s), pending)
    {
      var rows := SelectPending();
      pending := rows;
      count := ReindexRows(rows);
    }

    method Append(id: EventId, command: string)
      modifies this
      ensures s == Appended(em, old(s), id, command)
    {
      s := s.(db := s.db.(events := s.db.events[id := command]));
      if command == EventLog.REDACTED_TAINTED {
        return;
      }
      Upsert(id, em.embed(command), em.model);
    }
  }

  // ---- what every write keeps ----

  ghost predicate VectorRight(em: Embedder, db: Db, id: EventId) {
    id in db.events && id in db.coll && db.coll[id] == em.embed(db.events[id])
  }

  /** Meta rows of the active model tell the truth about the events there are. */
  ghost predicate Sound(em: Embedder, db: Db) {
    forall id :: id in db.events && id in db.meta && db.meta[id] == em.model ==> VectorRight(em, db, id)
  }

  /** The event is embedded, correctly, under the active model. */
  ghost predicate Done(em: Embedder, db: Db, id: EventId) {
    id in db.meta && db.meta[id] == em.model && VectorRight(em, db, id)
  }

  lemma OneKeeps(em: Embedder, s: Proc, id: EventId, command: string)
    requires Sound(em, s.db) && id in s.db.events && s.db.events[id] == command
    ensures var t := ReindexOne(em, s, id, command);
      && Sound(em, t.db) && t.db.events == s.db.events
      && (t.alive ==> s.alive)
  {
  }

  /** A reindex that is not killed gets its event right, and leaves a current row alone. */
  lemma OneWorks(em: Embedder, s: Proc, id: EventId, command: string)
    requires id in s.db.events && s.db.events[id] == command
    ensures var t := ReindexOne(em, s, id, command);
      && t.db.events == s.db.events && (t.alive ==> s.alive)
      && (Current(em, s.db, id) ==> t == s)
      && (t.alive && !Current(em, s.db, id) ==> Done(em, t.db, id))
  {
  }

  /** Both tables say the same about x. */
  ghost predicate SameRows(a: Db, b: Db, x: EventId) {
    && (x in a.meta <==> x in b.meta) && (x in a.coll <==> x in b.coll)
    && (x in a.meta ==> a.meta[x] == b.meta[x]) && (x in a.coll ==> a.coll[x] == b.coll[x])
  }

  /** A reindex touches only the rows of its own event. */
  lemma OneOnly(em: Embedder, s: Proc, id: EventId, command: string, x: EventId)
    requires x != id
    ensures SameRows(s.db, ReindexOne(em, s, id, command).db, x)
  {
  }

  ghost predicate Rows(db: Db, pending: seq<(EventId, string)>) {
    forall p :: p in pending ==> p.0 in db.events && db.events[p.0] == p.1
  }

  lemma {:induction false} AllKeeps(em: Embedder, s: Proc, pending: seq<(EventId, string)>)
    requires Sound(em, s.db) && Rows(s.db, pending)
    ensures var t := ReindexAll(em, s, pending).0; Sound(em, t.db) && t.db.events == s.db.events
    decreases |pending|
  {
    if pending != [] && s.alive {
      assert pending[0] in pending;
      OneKeeps(em, s, pending[0].0, pending[0].1);
      AllKeeps(em, ReindexOne(em, s, pending[0].0, pending[0].1), pending[1..]);
    }
  }

  /** What a run that is not killed does to one event: it leaves a current row alone, right or
      wrong, and embeds every other pending event correctly. */
  lemma {:induction false} AllWorks(em: Embedder, s: Proc, pending: seq<(EventId, string)>, id: EventId)
    requires Rows(s.db, pending) && ReindexAll(em, s, pending).0.alive && id in s.db.events
    ensures var t := ReindexAll(em, s, pending).0;
      && t.db.events == s.db.events
      && (Current(em, s.db, id) ==> Current(em, t.db, id) && (VectorRight(em, t.db, id) <==> VectorRight(em, s.db, id)))
      && (!Current(em, s.db, id) && (exists i :: 0 <= i < |pending| && pending[i].0 == id) ==> Done(em, t.db, id))
    decreases |pending|
  {
    if pending != [] && s.alive {
      var p := pending[0];
      assert p in pending;
      OneWorks(em, s, p.0, p.1);
      if id != p.0 { OneOnly(em, s, p.0, p.1, id); }
      var one := ReindexOne(em, s, p.0, p.1);
      AllWorks(em, one, pending[1..], id);
      if !Current(em, s.db, id) && id != p.0 {
        if i :| 0 <= i < |pending| && pending[i].0 == id {
          assert pending[1..][i - 1].0 == id;
        }
      }
    }
  }

  /** When every pending row is current, a run does nothing and counts nothing. */
  lemma {:induction false} NothingLeft(em: Embedder, s: Proc, pending: seq<(EventId, string)>)
    requires forall p :: p in pending ==> Current(em, s.db, p.0)
    ensures ReindexAll(em, s, pending) == (s, 0)
    decreases |pending|
  {
    if pending != [] && s.alive {
      assert pending[0] in pending;
      NothingLeft(em, s, pending[1..]);
    }
  }

  // ---- one append, and the count of a run ----

  /** An append that is not killed leaves an untainted event embedded under the active model, and
      a tainted one out of both vector tables; it touches no other event's rows. */
  lemma AppendWorks(em: Embedder, s: Proc, id: EventId, command: string)
    requires Appended(em, s, id, command).alive
    ensures var t := Appended(em, s, id, command);
      && t.db.events == s.db.events[id := command]
      && (command != "[REDACTED:tainted]" ==> Done(em, t.db, id))
      && (command == "[REDACTED:tainted]" ==> t.db.coll == s.db.coll && t.db.meta == s.db.meta)
      && forall x :: x != id ==> SameRows(s.db, t.db, x)
  {
  }

  /** How many of the rows have no current meta row. */
  function Stale(em: Embedder, db: Db, pending: seq<(EventId, string)>): nat {
    if |pending| == 0 then 0
    else (if pending[0].0 in db.meta && db.meta[pending[0].0] == em.model then 0 else 1) + Stale(em, db, pending[1..])
  }

  lemma {:induction false} StaleSame(em: Embedder, a: Db, b: Db, pending: seq<(EventId, string)>)
    requires forall p :: p in pending ==> SameRows(a, b, p.0)
    ensures Stale(em, a, pending) == Stale(em, b, pending)
  {
    if |pending| > 0 {
      assert pending[0] in pending;
      StaleSame(em, a, b, pending[1..]);
    }
  }

  /** A run that is not killed counts exactly the rows that were stale when it began. */
  lemma {:induction false} CountIsStale(em: Embedder, s: Proc, pending: seq<(EventId, string)>)
    requires ReindexAll(em, s, pending).0.alive
    requires forall i, j :: 0 <= i < j < |pending| ==> pending[i].0 != pending[j].0
    ensures ReindexAll(em, s, pending).1 == Stale(em, s.db, pending)
    decreases |pending|
  {
    if |pending| > 0 {
      var p, rest := pending[0], pending[1..];
      var one := ReindexOne(em, s, p.0, p.1);
      AliveBefore(em, s, pending);
      AliveBefore(em, one, rest);
      CountIsStale(em, one, rest);
      forall q | q in rest ensures SameRows(s.db, one.db, q.0) {
        var i :| 0 <= i < |rest| && rest[i] == q;
        assert pending[i + 1] == q;
        OneOnly(em, s, p.0, p.1, q.0);
      }
      StaleSame(em, s.db, one.db, rest);
    }
  }

  /** A run that is alive at its end was alive all the time. */
  lemma {:induction false} AliveBefore(em: Embedder, s: Proc, pending: seq<(EventId, string)>)
    requires ReindexAll(em, s, pending).0.alive
    ensures s.alive
    decreases |pending|
  {
    if |pending| > 0 && s.alive { AliveBefore(em, ReindexOne(em, s, pending[0].0, pending[0].1), pending[1..]); }
  }

  // ---- histories ----

  datatype Op =
    | CutReindex(pending: seq<(EventId, string)>, budget: nat)
    | CutAppend(id: EventId, command: string, budget: nat)
    | Purge(ids: set<EventId>)

  /** One process life: a reindex or an append that may be killed after any number of its
      writes, or a purge of events, which leaves the vector tables alone. */
  ghost predicate Lives(em: Embedder, db: Db, op: Op, db': Db) {
    match op
    case CutReindex(pending, budget) => Rows(db, pending) && db' == ReindexAll(em, Proc(db, budget, true), pending).0.db
    case CutAppend(id, command, budget) =>
      && id !in db.events && id !in db.meta && id !in db.coll
      && db' == Appended(em, Proc(db, budget, true), id, command).db
    case Purge(ids) => db' == db.(events := db.events - ids)
  }

  ghost predicate History(em: Embedder, dbs: seq<Db>, ops: seq<Op>) {
    |dbs| == |ops| + 1 && forall i :: 0 <= i < |ops| ==> Lives(em, dbs[i], ops[i], dbs[i + 1])
  }

  lemma {:induction false} HistoryKeeps(em: Embedder, dbs: seq<Db>, ops: seq<Op>, n: nat)
    requires History(em, dbs, ops) && Sound(em, dbs[0]) && n <= |ops|
    ensures Sound(em, dbs[n])
  {
    if n > 0 {
      HistoryKeeps(em, dbs, ops, n - 1);
      assert Lives(em, dbs[n - 1], ops[n - 1], dbs[n - 1 + 1]);
      if ops[n - 1].CutReindex? {
        AllKeeps(em, Proc(dbs[n - 1], ops[n - 1].budget, true), ops[n - 1].pending);
      }
    }
  }

  /** Reindex is crash-resumable: start where meta rows of the active model tell the truth,
      let any number of reindexes and appends be killed between any two writes, mixed with
      purges, and then let one reindex run to its end. Every untainted event is embedded
      correctly under the active model, and the next run does nothing and returns 0. */
  lemma CrashResumable(em: Embedder, dbs: seq<Db>, ops: seq<Op>, s: Proc, pending: seq<(EventId, string)>,
                       left: nat, again: seq<(EventId, string)>)
    requires History(em, dbs, ops) && Sound(em, dbs[0])
    requires s.db == dbs[|ops|] && Pending(s.db, pending) && ReindexAll(em, s, pending).0.alive
    requires Pending(ReindexAll(em, s, pending).0.db, again)
    ensures var done := ReindexAll(em, s, pending).0.db;
      && done.events == s.db.events
      && (forall id :: id in done.events && done.events[id] != EventLog.REDACTED_TAINTED ==> Done(em, done, id))
      && ReindexAll(em, Proc(done, left, true), again) == (Proc(done, left, true), 0)
  {
    HistoryKeeps(em, dbs, ops, |ops|);
    var done := ReindexAll(em, s, pending).0.db;
    AllKeeps(em, s, pending);
    forall id | id in done.events && done.events[id] != EventLog.REDACTED_TAINTED ensures Done(em, done, id) {
      AllWorks(em, s, pending, id);
    }
    forall p | p in again ensures Current(em, done, p.0) {
      var i :| 0 <= i < |again| && again[i] == p;
      assert again[i].0 == p.0;
    }
    NothingLeft(em, Proc(done, left, true), again);
  }

  /** From an arbitrary state a run that is not killed puts every untainted event right if and
      only if no such event had a current meta row over a missing or wrong vector: HasEvent
      asks the meta table only, so such a row is never repaired. */
  lemma RepairsIff(em: Embedder, s: Proc, pending: seq<(EventId, string)>)
    requires Pending(s.db, pending) && ReindexAll(em, s, pending).0.alive
    ensures var done := ReindexAll(em, s, pending).0.db;
      (forall id :: id in s.db.events && s.db.events[id] != EventLog.REDACTED_TAINTED ==> Done(em, done, id))
      <==>
      (forall id :: id in s.db.events && s.db.events[id] != EventLog.REDACTED_TAINTED && Current(em, s.db, id) ==> VectorRight(em, s.db, id))
  {
    forall id | id in s.db.events && s.db.events[id] != EventLog.REDACTED_TAINTED
      ensures Done(em, ReindexAll(em, s, pending).0.db, id) <==> (Current(em, s.db, id) ==> VectorRight(em, s.db, id))
    {
      AllWorks(em, s, pending, id);
    }
  }

  // ---- changing the model between runs ----

  /** The embedder of a model, from a family that has one for each. */
  function Of(family: Model -> string -> Vec, model: Model): Embedder {
    Embedder(model, family(model))
  }

  /** Wherever both rows are there, the vector is right for the model the meta row names. */
  ghost predicate RightWherePresent(family: Model -> string -> Vec, db: Db) {
    forall id :: id in db.events && id in db.meta && id in db.coll ==> db.coll[id] == family(db.meta[id])(db.events[id])
  }

  /** A current meta row over no vector. */
  predicate Torn(em: Embedder, db: Db, id: EventId) {
    Current(em, db, id) && id !in db.coll
  }

  lemma OneKeepsPresent(family: Model -> string -> Vec, model: Model, s: Proc, id: EventId, command: string)
    requires RightWherePresent(family, s.db) && id in s.db.events && s.db.events[id] == command
    ensures var t := ReindexOne(Of(family, model), s, id, command);
      RightWherePresent(family, t.db) && t.db.events == s.db.events
  {
  }

  lemma {:induction false} AllKeepPresent(family: Model -> string -> Vec, model: Model, s: Proc, pending: seq<(EventId, string)>)
    requires RightWherePresent(family, s.db) && Rows(s.db, pending)
    ensures RightWherePresent(family, ReindexAll(Of(family, model), s, pending).0.db)
    decreases |pending|
  {
    if pending != [] && s.alive {
      assert pending[0] in pending;
      OneKeepsPresent(family, model, s, pending[0].0, pending[0].1);
      AllKeepPresent(family, model, ReindexOne(Of(family, model), s, pending[0].0, pending[0].1), pending[1..]);
    }
  }

  /** A history in which every life has its own active model. */
  ghost predicate SwitchingHistory(family: Model -> string -> Vec, models: seq<Model>, dbs: seq<Db>, ops: seq<Op>) {
    && |models| == |ops| && |dbs| == |ops| + 1
    && forall i :: 0 <= i < |ops| ==> Lives(Of(family, models[i]), dbs[i], ops[i], dbs[i + 1])
  }

  lemma {:induction false} SwitchingKeepsPresent(family: Model -> string -> Vec, models: seq<Model>, dbs: seq<Db>, ops: seq<Op>, n: nat)
    requires SwitchingHistory(family, models, dbs, ops) && RightWherePresent(family, dbs[0]) && n <= |ops|
    ensures RightWherePresent(family, dbs[n])
  {
    if n > 0 {
      SwitchingKeepsPresent(family, models, dbs, ops, n - 1);
      assert Lives(Of(family, models[n - 1]), dbs[n - 1], ops[n - 1], dbs[n - 1 + 1]);
      if ops[n - 1].CutReindex? {
        AllKeepPresent(family, models[n - 1], Proc(dbs[n - 1], ops[n - 1].budget, true), ops[n - 1].pending);
      }
    }
  }

  /** However often the model changed and the process was killed: after a run to its end under
      one model, an untainted event is embedded correctly under it if and only if its row was
      not torn when the run began. */
  lemma SwitchingResumableIff(family: Model -> string -> Vec, models: seq<Model>, dbs: seq<Db>, ops: seq<Op>,
                              model: Model, s: Proc, pending: seq<(EventId, string)>, id: EventId)
    requires SwitchingHistory(family, models, dbs, ops) && RightWherePresent(family, dbs[0])
    requires s.db == dbs[|ops|] && Pending(s.db, pending) && ReindexAll(Of(family, model), s, pending).0.alive
    requires id in s.db.events && s.db.events[id] != EventLog.REDACTED_TAINTED
    ensures Done(Of(family, model), ReindexAll(Of(family, model), s, pending).0.db, id) <==> !Torn(Of(family, model), s.db, id)
  {
    SwitchingKeepsPresent(family, models, dbs, ops, |ops|);
    AllWorks(Of(family, model), s, pending, id);
  }

  /** How a row gets torn: a reindex under another model is killed after the first of the two
      writes of its delete. With no write left it changes nothing, with two the meta row goes. */
  lemma TornByCutDeleteIff(family: Model -> string -> Vec, before: Model, model: Model, s: Proc, id: EventId, command: string)
    requires before != model && s.alive && id in s.db.events && s.db.events[id] == command
    requires id in s.db.meta && s.db.meta[id] == before
    ensures Torn(Of(family, before), ReindexOne(Of(family, model), s, id, command).db, id)
       <==> s.left == 1 || (s.left == 0 && id !in s.db.coll)
  {
  }
}
