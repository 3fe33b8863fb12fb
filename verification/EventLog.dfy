/** The event log and its index of saved paths: two tables changed in one transaction each. */
module EventLog {
  import opened Wrappers
  import opened Sequences
  import opened FileSystem
  import opened Snapshot

  datatype Kind = KindPreExec | KindSnapshot | KindCheckpoint

  type EventId = string

  /** What stands in the log for the line of a tainted pipeline. */
  const REDACTED_TAINTED := "[REDACTED:tainted]"

  datatype Event = Event(
    id: EventId,
    ts: int,
    kind: Kind,
    name: string,
    command: string,
    affected: seq<Affected>,
    exitCode: Option<int>,
    durationMs: int)

  /** One row of the snapshots table. */
  datatype IndexRow = IndexRow(row: Affected, ts: int)

  type Key = (EventId, Path)

  datatype Log = Log(events: seq<Event>, index: map<Key, IndexRow>)

  function Ids(events: seq<Event>): set<EventId> {
    set e | e in events :: e.id
  }

  predicate Restorable(r: Affected) {
    (r.op == OpDelete || r.op == OpRename || r.op == OpModify) && r.dir.Some?
  }

  // ---- the operations, on values ----

  /** The snapshots of one event, inserted in order; None as soon as a key is taken. */
  function InsertAll(index: map<Key, IndexRow>, e: Event, rows: seq<Affected>): Option<map<Key, IndexRow>>
    decreases |rows|
  {
    if |rows| == 0 then Some(index)
    else if (e.id, rows[0].path) in index then None
    else InsertAll(index[(e.id, rows[0].path) := IndexRow(rows[0], e.ts)], e, rows[1..])
  }

  function Appended(log: Log, e: Event): (Log, bool) {
    if e.id == "" || e.id in Ids(log.events) then (log, false)
    else match InsertAll(log.index, e, e.affected)
      case None => (log, false)
      case Some(index) => (Log(log.events + [e.(exitCode := None)], index), true)
  }

  function SetExit(events: seq<Event>, id: EventId, code: int, ms: int): seq<Event> {
    seq(|events|, i requires 0 <= i < |events| =>
      if events[i].id == id then events[i].(exitCode := Some(code), durationMs := ms) else events[i])
  }

  /** Whole milliseconds of a duration in nanoseconds, toward zero. */
  function Millis(nanos: int): int {
    if nanos >= 0 then nanos / 1_000_000 else -(-nanos / 1_000_000)
  }

  /** Rounding toward zero loses less than a millisecond. */
  lemma MillisIs(nanos: int)
    ensures nanos >= 0 ==> Millis(nanos) * 1_000_000 <= nanos < (Millis(nanos) + 1) * 1_000_000
    ensures Millis(-nanos) == -Millis(nanos)
  {
  }

  /** The event of that id has its exit code and duration set; any other is as it was. */
  ghost predicate Closes(e: Event, e': Event, meant: bool, code: int, nanos: int) {
    if meant then e' == e.(exitCode := Some(code), durationMs := e'.durationMs) && e'.durationMs == Millis(nanos)
    else e' == e
  }

  function Finalized(log: Log, id: EventId, code: int, nanos: int): (Log, bool) {
    if id in Ids(log.events) then (log.(events := SetExit(log.events, id, code, Millis(nanos))), true) else (log, false)
  }

  function CheckpointEvent(id: EventId, ts: int, name: string): Event {
    Event(id, ts, KindCheckpoint, name, "checkpoint " + name, [], Some(0), 0)
  }

  function Checkpointed(log: Log, id: EventId, ts: int, name: string): (Log, bool) {
    if name == "" then (log, false)
    else
      var added := Appended(log, CheckpointEvent(id, ts, name));
      if added.1 then (added.0.(events := SetExit(added.0.events, id, 0, 0)), true) else added
  }

  function Live(events: seq<Event>, before: int): seq<Event> {
    if |events| == 0 then []
    else if events[0].ts < before then Live(events[1..], before)
    else [events[0]] + Live(events[1..], before)
  }

  function Purged(log: Log, before: int): Log {
    var gone := set e | e in log.events && e.ts < before :: e.id;
    Log(Live(log.events, before), map k | k in log.index && k.0 !in gone :: log.index[k])
  }

  // ---- the store ----

  class Store {
    var log: Log

    constructor ()
      ensures log == Log([], map[])
    {
      log := Log([], map[]);
    }

    /** One transaction: the event and all its snapshot rows, or nothing. */
    method Append(e: Event) returns (ok: bool)
      modifies this
      ensures (log, ok) == Appended(old(log), e)
    {
      if e.id == "" {
        return false;
      }
      if e.id in Ids(log.events) {
        return false;
      }
      var events := log.events + [e.(exitCode := None)];
      var index := log.index;
      for i := 0 to |e.affected|
        invariant log == old(log)
        invariant InsertAll(index, e, e.affected[i..]) == InsertAll(log.index, e, e.affected)
      {
        var r := e.affected[i];
        assert e.affected[i..][1..] == e.affected[i + 1..];
        if (e.id, r.path) in index {
          return false;
        }
        index := index[(e.id, r.path) := IndexRow(r, e.ts)];
      }
      log := Log(events, index);
      ok := true;
    }

    /** An UPDATE of the rows with this id: their exit code and duration, and nothing else. */
    method Finalize(id: EventId, code: int, nanos: int) returns (ok: bool)
      modifies this
      ensures (log, ok) == Finalized(old(log), id, code, nanos)
      ensures ok <==> exists k :: 0 <= k < |old(log).events| && old(log).events[k].id == id
      ensures log.index == old(log).index && |log.events| == |old(log).events|
      ensures forall k :: 0 <= k < |log.events| ==>
                Closes(old(log).events[k], log.events[k], old(log).events[k].id == id, code, nanos)
    {
      MillisIs(nanos);
      ok := false;
      var events := log.events;
      for i := 0 to |log.events|
        invariant log == old(log) && |events| == |log.events|
        invariant ok <==> exists k :: 0 <= k < i && log.events[k].id == id
        invariant forall k :: 0 <= k < i ==> events[k] == SetExit(log.events, id, code, Millis(nanos))[k]
        invariant forall k :: i <= k < |events| ==> events[k] == log.events[k]
      {
        if events[i].id == id {
          events := events[i := events[i].(exitCode := Some(code), durationMs := Millis(nanos))];
          ok := true;
        }
      }
      ghost var before := log.events;
      if ok {
        assert events == SetExit(before, id, code, Millis(nanos));
        log := log.(events := events);
      }
    }

    method Checkpoint(id: EventId, ts: int, name: string) returns (ok: bool)
      modifies this
      ensures (log, ok) == Checkpointed(old(log), id, ts, name)
      ensures ok <==> name != "" && id != "" && id !in Ids(old(log).events)
      ensures !ok ==> log == old(log)
      ensures ok && IndexAgrees(old(log)) ==> AddsCheckpoint(old(log), log, id, ts, name)
    {
      ghost var was := log;
      CheckpointAdds(log, id, ts, name);
      if name == "" {
        return false;
      }
      ok := Append(CheckpointEvent(id, ts, name));
      if ok {
        log := log.(events := SetExit(log.events, id, 0, 0));
      }
    }

    /** Two deletes in one transaction: the index rows of the older events, then the events. */
    method Purge(before: int) returns (n: nat)
      modifies this
      ensures log == Purged(old(log), before)
      ensures n + |log.events| == |old(log).events|
      ensures forall e :: e in log.events <==> e in old(log).events && e.ts >= before
      ensures forall k :: k in log.index <==>
                k in old(log).index && forall e :: e in old(log).events && e.id == k.0 ==> e.ts >= before
      ensures forall k :: k in log.index ==> log.index[k] == old(log).index[k]
      ensures IndexAgrees(old(log)) ==> IndexAgrees(log)
    {
      ghost var was := log;
      var gone := set e | e in log.events && e.ts < before :: e.id;
      log := log.(index := map k | k in log.index && k.0 !in gone :: log.index[k]);
      var kept: seq<Event> := [];
      n := 0;
      for i := 0 to |log.events|
        invariant log.events == was.events && log.index == Purged(was, before).index
        invariant n + |kept| == i
        invariant kept + Live(was.events[i..], before) == Live(was.events, before)
        invariant forall e :: e in kept <==> e in was.events[..i] && e.ts >= before
      {
        var e := log.events[i];
        assert was.events[i..][0] == e && was.events[i..][1..] == was.events[i + 1..];
        assert was.events[..i + 1] == was.events[..i] + [e];
        if e.ts < before {
          n := n + 1;
        } else {
          Associative(kept, [e], Live(was.events[i + 1..], before));
          kept := kept + [e];
        }
      }
      assert was.events[..|was.events|] == was.events;
      log := log.(events := kept);
      if IndexAgrees(was) { PurgeAgrees(was, before); }
    }
  }

  // ---- the index agrees with the log ----

  ghost predicate Lists(e: Event, k: Key, x: IndexRow) {
    e.id == k.0 && x.ts == e.ts && x.row in e.affected && x.row.path == k.1
  }

  ghost predicate UniqueIds(events: seq<Event>) {
    forall i, j :: 0 <= i < j < |events| ==> events[i].id != events[j].id
  }

  /** Every row of the table is an affected row of a live event. */
  ghost predicate OnlyLive(log: Log) {
    forall k :: k in log.index ==> exists e :: e in log.events && Lists(e, k, log.index[k])
  }

  /** The rows of one event are in the table. */
  ghost predicate Indexed(index: map<Key, IndexRow>, e: Event) {
    forall r :: r in e.affected ==> (e.id, r.path) in index && index[(e.id, r.path)] == IndexRow(r, e.ts)
  }

  /** The snapshots table is exactly the affected rows of the live events. */
  ghost predicate IndexAgrees(log: Log) {
    && UniqueIds(log.events) && OnlyLive(log)
    && forall e :: e in log.events ==> Distinct(e.affected) && Indexed(log.index, e)
  }

  /** Inserting succeeds exactly when no path is listed twice, given that the id is new. */
  lemma {:induction false} InsertAllInserts(index: map<Key, IndexRow>, e: Event, rows: seq<Affected>)
    ensures var out := InsertAll(index, e, rows);
      && (out.Some? <==> Distinct(rows) && forall r :: r in rows ==> (e.id, r.path) !in index)
      && (out.Some? ==> Inserted(index, e, rows, out.value))
    decreases |rows|
  {
    if |rows| > 0 {
      var k0 := (e.id, rows[0].path);
      var next := index[k0 := IndexRow(rows[0], e.ts)];
      InsertAllInserts(next, e, rows[1..]);
      DistinctSplit(rows);
      assert rows == [rows[0]] + rows[1..];
      if k0 !in index && InsertAll(next, e, rows[1..]).Some? {
        OneMoreInserted(index, e, rows[0], rows[1..], InsertAll(next, e, rows[1..]).value);
      }
    }
  }

  lemma OneMoreInserted(index: map<Key, IndexRow>, e: Event, r: Affected, rows: seq<Affected>, out: map<Key, IndexRow>)
    requires (e.id, r.path) !in index
    requires Inserted(index[(e.id, r.path) := IndexRow(r, e.ts)], e, rows, out)
    ensures Inserted(index, e, [r] + rows, out)
  {
    var next := index[(e.id, r.path) := IndexRow(r, e.ts)];
    assert (e.id, r.path) in next;
    forall k | k in out && k !in index ensures exists x :: x in [r] + rows && k == (e.id, x.path) {
      if k in next {
        assert r in [r] + rows;
      } else {
        var x :| x in rows && k == (e.id, x.path);
        assert x in [r] + rows;
      }
    }
  }

  lemma DistinctSplit(rows: seq<Affected>)
    requires rows != []
    ensures Distinct(rows) <==> Distinct(rows[1..]) && forall r :: r in rows[1..] ==> r.path != rows[0].path
  {
    assert forall i :: 1 <= i < |rows| ==> rows[i] == rows[1..][i - 1];
  }

  /** An event is recorded exactly when its id is new and its paths are distinct; otherwise
      both tables stay as they were. */
  lemma AppendAgrees(log: Log, e: Event)
    requires IndexAgrees(log)
    ensures Appended(log, e).1 <==> e.id != "" && e.id !in Ids(log.events) && Distinct(e.affected)
    ensures !Appended(log, e).1 ==> Appended(log, e).0 == log
    ensures Appended(log, e).1 ==> Appended(log, e).0.events == log.events + [e.(exitCode := None)]
    ensures IndexAgrees(Appended(log, e).0)
  {
    if e.id != "" && e.id !in Ids(log.events) {
      InsertAllInserts(log.index, e, e.affected);
      assert forall k :: k in log.index ==> k.0 != e.id;
      var out := InsertAll(log.index, e, e.affected);
      if out.Some? { InsertedAgrees(log, e, e.(exitCode := None), out.value); }
    }
  }

  /** What InsertAll leaves in the table. */
  ghost predicate Inserted(index: map<Key, IndexRow>, e: Event, rows: seq<Affected>, out: map<Key, IndexRow>) {
    && (forall k :: k in out ==> k in index || exists r :: r in rows && k == (e.id, r.path))
    && (forall k :: k in index ==> k in out && out[k] == index[k])
    && (forall r :: r in rows ==> (e.id, r.path) in out && out[(e.id, r.path)] == IndexRow(r, e.ts))
  }

  lemma InsertedAgrees(log: Log, e: Event, added: Event, index: map<Key, IndexRow>)
    requires IndexAgrees(log) && e.id !in Ids(log.events) && Distinct(e.affected)
    requires Inserted(log.index, e, e.affected, index)
    requires added.id == e.id && added.affected == e.affected && added.ts == e.ts
    ensures IndexAgrees(Log(log.events + [added], index))
  {
    InsertedOnlyLive(log, e, added, index);
    forall i | 0 <= i < |log.events| ensures log.events[i].id != e.id {
      assert log.events[i] in log.events;
    }
    forall x | x in log.events ensures Indexed(index, x) {
      assert Indexed(log.index, x);
    }
  }

  lemma InsertedOnlyLive(log: Log, e: Event, added: Event, index: map<Key, IndexRow>)
    requires OnlyLive(log) && Inserted(log.index, e, e.affected, index)
    requires added.id == e.id && added.affected == e.affected && added.ts == e.ts
    ensures OnlyLive(Log(log.events + [added], index))
  {
    forall k | k in index ensures exists x :: x in log.events + [added] && Lists(x, k, index[k]) {
      if k in log.index {
        var x :| x in log.events && Lists(x, k, log.index[k]);
        assert x in log.events + [added];
      } else {
        assert added in log.events + [added] && Lists(added, k, index[k]);
      }
    }
  }

  /** Closing an event changes only exit codes. */
  lemma SetExitAgrees(log: Log, id: EventId, code: int, ms: int)
    requires IndexAgrees(log)
    ensures IndexAgrees(log.(events := SetExit(log.events, id, code, ms)))
  {
    var events := SetExit(log.events, id, code, ms);
    forall e | e in events ensures exists x :: x in log.events && e == x.(exitCode := e.exitCode, durationMs := e.durationMs) {
      var i :| 0 <= i < |events| && events[i] == e;
      assert log.events[i] in log.events;
    }
    forall k | k in log.index ensures exists e :: e in events && Lists(e, k, log.index[k]) {
      var x :| x in log.events && Lists(x, k, log.index[k]);
      var i :| 0 <= i < |log.events| && log.events[i] == x;
      assert events[i] in events && Lists(events[i], k, log.index[k]);
    }
  }

  lemma {:induction false} LiveIs(events: seq<Event>, before: int)
    requires UniqueIds(events)
    ensures var live := Live(events, before);
      && (forall e :: e in live <==> e in events && e.ts >= before)
      && UniqueIds(live)
  {
    if events != [] {
      LiveIs(events[1..], before);
      assert events == [events[0]] + events[1..];
      var rest := Live(events[1..], before);
      forall k | 0 <= k < |rest| ensures rest[k].id != events[0].id {
        assert rest[k] in events[1..];
        var j :| 0 <= j < |events[1..]| && events[1..][j] == rest[k];
        assert events[j + 1] == rest[k];
      }
    }
  }

  lemma PurgeAgrees(log: Log, before: int)
    requires IndexAgrees(log)
    ensures IndexAgrees(Purged(log, before))
    ensures forall e :: e in Purged(log, before).events <==> e in log.events && e.ts >= before
  {
    LiveIs(log.events, before);
    var after := Purged(log, before);
    forall k | k in after.index ensures exists e :: e in after.events && Lists(e, k, after.index[k]) {
      var e :| e in log.events && Lists(e, k, log.index[k]);
      assert e.ts >= before;
    }
    forall e | e in after.events ensures Indexed(after.index, e) {
      assert Indexed(log.index, e);
      forall x | x in log.events && x.id == e.id ensures x == e { SameEvent(log.events, x, e); }
    }
  }

  lemma SameEvent(events: seq<Event>, x: Event, e: Event)
    requires UniqueIds(events) && x in events && e in events && x.id == e.id
    ensures x == e
  {
    var i, j :| 0 <= i < |events| && 0 <= j < |events| && events[i] == x && events[j] == e;
    assert i == j;
  }

  datatype LogOp =
    | DoAppend(e: Event)
    | DoFinalize(id: EventId, code: int, nanos: int)
    | DoCheckpoint(cid: EventId, ts: int, name: string)
    | DoPurge(before: int)

  function Apply(log: Log, op: LogOp): Log {
    match op
    case DoAppend(e) => Appended(log, e).0
    case DoFinalize(id, code, nanos) => Finalized(log, id, code, nanos).0
    case DoCheckpoint(id, ts, name) => Checkpointed(log, id, ts, name).0
    case DoPurge(before) => Purged(log, before)
  }

  function ApplyAll(log: Log, ops: seq<LogOp>): Log {
    if ops == [] then log else Apply(ApplyAll(log, ops[..|ops| - 1]), ops[|ops| - 1])
  }

  /** In every reachable log the snapshots table is exactly the affected rows of the live events. */
  lemma {:induction false} IndexAlwaysAgrees(ops: seq<LogOp>)
    ensures IndexAgrees(ApplyAll(Log([], map[]), ops))
  {
    if ops != [] {
      var last := |ops| - 1;
      IndexAlwaysAgrees(ops[..last]);
      var log := ApplyAll(Log([], map[]), ops[..last]);
      match ops[last] {
        case DoAppend(e) => AppendAgrees(log, e);
        case DoFinalize(id, code, nanos) => SetExitAgrees(log, id, code, Millis(nanos));
        case DoCheckpoint(id, ts, name) =>
          AppendAgrees(log, CheckpointEvent(id, ts, name));
          SetExitAgrees(Appended(log, CheckpointEvent(id, ts, name)).0, id, 0, 0);
        case DoPurge(before) => PurgeAgrees(log, before);
      }
    }
  }

  // ---- the queries ----

  /** What the join in SnapshotsForPath selects, before ordering. */
  ghost predicate Selected(log: Log, path: Path, k: Key) {
    && k in log.index && k.1 == path && Restorable(log.index[k].row)
    && exists e :: e in log.events && e.id == k.0 && e.exitCode.Some?
  }

  /** An answer the query may give: a selected row of the greatest timestamp, or none. */
  ghost predicate AnswersPath(log: Log, path: Path, answer: Option<Affected>) {
    match answer
    case None => forall k :: !Selected(log, path, k)
    case Some(row) =>
      exists k :: Selected(log, path, k) && log.index[k].row == row
        && forall other :: Selected(log, path, other) ==> log.index[other].ts <= log.index[k].ts
  }

  /** A finished event that holds a restorable row for path. */
  ghost predicate Holds(log: Log, path: Path, e: Event, row: Affected) {
    e in log.events && e.exitCode.Some? && row in e.affected && row.path == path && Restorable(row)
  }

  ghost predicate HoldsLatest(log: Log, path: Path, e: Event, row: Affected) {
    && Holds(log, path, e, row)
    && forall x, other :: Holds(log, path, x, other) ==> x.ts <= e.ts
  }

  lemma SelectedHolds(log: Log, path: Path, k: Key) returns (e: Event)
    requires IndexAgrees(log) && Selected(log, path, k)
    ensures Holds(log, path, e, log.index[k].row) && e.ts == log.index[k].ts
  {
    e :| e in log.events && Lists(e, k, log.index[k]);
    var x :| x in log.events && x.id == k.0 && x.exitCode.Some?;
    SameEvent(log.events, x, e);
  }

  lemma HoldsSelected(log: Log, path: Path, e: Event, row: Affected)
    requires IndexAgrees(log) && Holds(log, path, e, row)
    ensures Selected(log, path, (e.id, path)) && log.index[(e.id, path)].ts == e.ts
  {
  }

  lemma PathAnswer(log: Log, path: Path, answer: Option<Affected>)
    requires IndexAgrees(log) && AnswersPath(log, path, answer)
    ensures answer.None? <==> forall e, row :: !Holds(log, path, e, row)
    ensures answer.Some? ==> exists e :: HoldsLatest(log, path, e, answer.value)
  {
    if answer.None? {
      forall e, row ensures !Holds(log, path, e, row) {
        if Holds(log, path, e, row) { HoldsSelected(log, path, e, row); }
      }
    } else {
      var k :| Selected(log, path, k) && log.index[k].row == answer.value
        && forall other :: Selected(log, path, other) ==> log.index[other].ts <= log.index[k].ts;
      var e := SelectedHolds(log, path, k);
      forall x, row | Holds(log, path, x, row) ensures x.ts <= e.ts {
        HoldsSelected(log, path, x, row);
      }
      assert HoldsLatest(log, path, e, answer.value);
    }
  }

  /** In every reachable log, whatever SnapshotsForPath answers is a restorable row, for the
      path asked, of a finished event that no later finished event supersedes; and it answers
      nothing exactly when no finished event holds one. */
  lemma PathAnswerIsLatest(ops: seq<LogOp>, log: Log, path: Path, answer: Option<Affected>)
    requires log == ApplyAll(Log([], map[]), ops) && AnswersPath(log, path, answer)
    ensures answer.None? <==> forall e, row :: !Holds(log, path, e, row)
    ensures answer.Some? ==> exists e :: HoldsLatest(log, path, e, answer.value)
  {
    IndexAlwaysAgrees(ops);
    PathAnswer(log, path, answer);
  }

  // ---- the events since a checkpoint ----

  predicate IdLess(a: EventId, b: EventId)
    decreases |a|
  {
    b != [] && (a == [] || a[0] < b[0] || (a[0] == b[0] && IdLess(a[1..], b[1..])))
  }

  /** ORDER BY ts DESC, id DESC. */
  predicate Newer(a: Event, b: Event) {
    a.ts > b.ts || (a.ts == b.ts && IdLess(b.id, a.id))
  }

  predicate Since(e: Event, ts: int) {
    e.kind == KindSnapshot && e.ts > ts && e.exitCode.Some?
  }

  predicate Finished(e: Event) {
    e.kind == KindSnapshot && e.exitCode.Some?
  }

  predicate IsCheckpoint(e: Event, name: string) {
    e.kind == KindCheckpoint && e.name == name
  }

  /** The newest of the events that qualify, or none when none does. */
  ghost predicate Newest(events: seq<Event>, qualifies: Event -> bool, answer: Option<Event>) {
    match answer
    case None => forall e :: e in events ==> !qualifies(e)
    case Some(e) => e in events && qualifies(e) && forall x :: x in events && qualifies(x) && x != e ==> Newer(e, x)
  }

  /** What the query of LatestRestorable selects. */
  ghost predicate AnswersLatest(events: seq<Event>, answer: Option<Event>) {
    Newest(events, Finished, answer)
  }

  /** The answer of CheckpointByName. */
  ghost predicate AnswersCheckpoint(events: seq<Event>, name: string, answer: Option<Event>) {
    Newest(events, e => IsCheckpoint(e, name), answer)
  }

  /** A finished snapshot event newer than all others is the one selected. */
  lemma LatestIs(events: seq<Event>, e: Event, answer: Option<Event>)
    requires AnswersLatest(events, answer) && e in events && Finished(e)
    requires forall x :: x in events && Finished(x) && x != e ==> x.ts < e.ts
    ensures answer == Some(e)
  {
    if answer.Some? { assert answer.value == e || Newer(answer.value, e); }
  }

  /** The answer of EventsSinceCheckpoint. */
  ghost predicate AnswersSince(events: seq<Event>, ts: int, out: seq<Event>) {
    && (forall e :: e in out <==> e in events && Since(e, ts))
    && (forall i, j :: 0 <= i < j < |out| ==> Newer(out[i], out[j]))
  }

  function Matching(events: seq<Event>, ts: int): seq<Event> {
    if events == [] then []
    else
      var last := events[|events| - 1];
      (if Since(last, ts) then [last] else []) + Matching(events[..|events| - 1], ts)
  }

  ghost predicate Increasing(events: seq<Event>) {
    forall i, j :: 0 <= i < j < |events| ==> events[i].ts < events[j].ts
  }

  lemma FirstIn(events: seq<Event>)
    ensures events != [] ==> events[0] in events
  {
  }

  /** The newest matching event comes first in the answer. */
  lemma NewestLeads(init: seq<Event>, last: Event, ts: int, out: seq<Event>)
    requires forall e :: e in init ==> e.ts < last.ts
    requires AnswersSince(init + [last], ts, out) && Since(last, ts)
    ensures out != [] && out[0] == last && AnswersSince(init, ts, out[1..])
  {
    assert last in init + [last];
    var n :| 0 <= n < |out| && out[n] == last;
    assert out[0] in out;
    if n > 0 { assert Newer(out[0], out[n]); }
    var rest := out[1..];
    forall e ensures e in rest <==> e in init && Since(e, ts) {
      if e in rest {
        var i :| 0 <= i < |rest| && rest[i] == e;
        assert out[i + 1] == e && Newer(out[0], out[i + 1]);
        assert e in out;
        NotNewer(last);
      }
      if e in init && Since(e, ts) {
        assert e in out && e != out[0];
      }
    }
  }

  lemma LastSkipped(init: seq<Event>, last: Event, ts: int, out: seq<Event>)
    requires AnswersSince(init + [last], ts, out) && !Since(last, ts)
    ensures AnswersSince(init, ts, out)
  {
  }

  /** When events are logged with increasing timestamps, the query returns the finished
      snapshot events after the checkpoint in exactly the reverse of log order. */
  lemma {:induction false} SinceIsReverse(events: seq<Event>, ts: int, out: seq<Event>)
    requires Increasing(events) && AnswersSince(events, ts, out)
    ensures out == Matching(events, ts)
    decreases |events|
  {
    if events == [] {
      FirstIn(out);
    } else {
      var init, last := events[..|events| - 1], events[|events| - 1];
      assert events == init + [last];
      if Since(last, ts) {
        NewestLeads(init, last, ts, out);
        SinceIsReverse(init, ts, out[1..]);
      } else {
        LastSkipped(init, last, ts, out);
        SinceIsReverse(init, ts, out);
      }
    }
  }

  lemma NotNewer(e: Event)
    ensures !Newer(e, e)
  {
    NotLess(e.id);
  }

  lemma {:induction false} NotLess(a: EventId)
    ensures !IdLess(a, a)
  {
    if a != [] { NotLess(a[1..]); }
  }

  // ---- checkpoints ----

  /** One event more, of the checkpoint kind, with that name and already finished. */
  ghost predicate AddsCheckpoint(log: Log, log': Log, id: EventId, ts: int, name: string) {
    && log'.index == log.index && |log'.events| == |log.events| + 1
    && log'.events[..|log.events|] == log.events
    && var cp := log'.events[|log.events|];
       cp.id == id && cp.ts == ts && cp.kind == KindCheckpoint && cp.name == name && cp.affected == [] && cp.exitCode == Some(0)
  }

  lemma CheckpointAdds(log: Log, id: EventId, ts: int, name: string)
    ensures var out := Checkpointed(log, id, ts, name);
      && (out.1 <==> name != "" && id != "" && id !in Ids(log.events))
      && (!out.1 ==> out.0 == log)
      && (out.1 ==> AddsCheckpoint(log, out.0, id, ts, name))
  {
    var e := CheckpointEvent(id, ts, name);
    if name != "" && id != "" && id !in Ids(log.events) {
      assert InsertAll(log.index, e, e.affected) == Some(log.index);
      var events := log.events + [e.(exitCode := None)];
      forall i | 0 <= i < |log.events| ensures SetExit(events, id, 0, 0)[i] == log.events[i] {
        assert log.events[i] in log.events && log.events[i].id in Ids(log.events);
      }
      assert SetExit(events, id, 0, 0)[..|log.events|] == log.events;
    }
  }

  /** A checkpoint written with a newer timestamp is the answer for its name; what another name
      answers stays. */
  lemma CheckpointFound(log: Log, id: EventId, ts: int, name: string, asked: string, answer: Option<Event>)
    requires name != "" && id != "" && id !in Ids(log.events)
    requires forall e :: e in log.events ==> e.ts < ts
    requires AnswersCheckpoint(Checkpointed(log, id, ts, name).0.events, asked, answer)
    ensures asked == name ==> answer.Some? && answer.value.id == id && answer.value.ts == ts && answer.value.name == name
    ensures asked != name ==> AnswersCheckpoint(log.events, asked, answer)
  {
    CheckpointAdds(log, id, ts, name);
    var after := Checkpointed(log, id, ts, name).0.events;
    var cp := after[|log.events|];
    assert after == log.events + [cp] && cp in after;
    assert forall e :: e in after <==> e in log.events || e == cp;
    if asked == name {
      assert IsCheckpoint(cp, name);
      assert answer.Some? ==> answer.value == cp || Newer(answer.value, cp);
    }
  }
}
