/** The interceptor the shell calls around every command, and the rollback built-in. */
module History {
  import opened Wrappers
  import opened Sequences
  import opened FileSystem
  import opened Snapshot
  import opened Undo
  import opened EventLog
  import opened Rollback
  import Commands
  import Detect
  import Pipelines

  function Canon(paths: seq<string>, canon: string -> Path): seq<Path> {
    seq(|paths|, i requires 0 <= i < |paths| => canon(paths[i]))
  }

  function CanonPairs(pairs: seq<(string, string)>, canon: string -> Path): seq<(Path, Path)> {
    seq(|pairs|, i requires 0 <= i < |pairs| => (canon(pairs[i].0), canon(pairs[i].1)))
  }

  /** How Before reads a pipeline: with any mv stage, only the mv pairs count. */
  function CommandOf(pl: Pipelines.Pipeline, canon: string -> Path): Commands.Command {
    if Detect.HasMv(pl) then Commands.Mv(CanonPairs(Detect.AllPairs(pl.commands), canon))
    else Commands.Rm(Canon(Detect.AllTargets(pl.commands), canon))
  }

  lemma {:induction false} NoMvNoPairs(commands: seq<Pipelines.Command>)
    requires forall i :: 0 <= i < |commands| ==> commands[i].name != "mv"
    ensures Detect.AllPairs(commands) == []
  {
    if commands != [] { NoMvNoPairs(commands[1..]); }
  }

  /** Without a mv stage, the recorded paths are exactly the trees of the stages' path
      arguments. With one, the rows with a target are exactly those of the moved pairs. */
  ghost predicate RecordsArguments(fs: FS, commands: seq<Pipelines.Command>, canon: string -> Path, rows: seq<Affected>) {
    if Detect.NoMv(commands) then
      forall q :: q in PathsOf(rows) <==> exists a :: Detect.Touched(commands, a) && q in TreeOf(fs, canon(a))
    else
      && (forall s, d :: Detect.Moved(commands, s, d) ==> Commands.HasNamed(fs, (canon(s), canon(d)), rows))
      && (forall r :: r in rows && r.target.Some? ==> MovedRow(fs, commands, canon, r))
  }

  /** r is the row of the source of a pair that a mv stage moves. */
  ghost predicate MovedRow(fs: FS, commands: seq<Pipelines.Command>, canon: string -> Path, r: Affected) {
    exists s, d :: Detect.Moved(commands, s, d) && Commands.NamesPair(fs, (canon(s), canon(d)), r)
  }

  lemma TargetsRecorded(cfg: Config, fs: FS, snaps: Snaps, commands: seq<Pipelines.Command>, canon: string -> Path,
                        targets: seq<string>, rows: seq<Affected>, q: Path)
    requires Detect.NoMv(commands) && Detect.TakesExactly(commands, targets)
    requires ManyRows(cfg, fs, snaps, Canon(targets, canon), rows)
    ensures q in PathsOf(rows) <==> exists a :: Detect.Touched(commands, a) && q in TreeOf(fs, canon(a))
  {
    var paths := Canon(targets, canon);
    ManyPaths(cfg, fs, snaps, paths, rows);
    TreesMembers(fs, paths, q);
    if k :| 0 <= k < |paths| && q in TreeOf(fs, paths[k]) {
      assert targets[k] in targets && paths[k] == canon(targets[k]);
    }
    if a :| Detect.Touched(commands, a) && q in TreeOf(fs, canon(a)) {
      var k :| 0 <= k < |targets| && targets[k] == a;
      assert paths[k] == canon(a);
    }
  }

  lemma PairNamed(fs: FS, canon: string -> Path, pairs: seq<(string, string)>, rows: seq<Affected>, s: string, d: string)
    requires Commands.NamesPairs(fs, CanonPairs(pairs, canon), rows) && (s, d) in pairs
    ensures Commands.HasNamed(fs, (canon(s), canon(d)), rows)
  {
    var i :| 0 <= i < |pairs| && pairs[i] == (s, d);
    assert CanonPairs(pairs, canon)[i] == (canon(s), canon(d));
  }

  lemma RowIsMoved(fs: FS, commands: seq<Pipelines.Command>, canon: string -> Path, pairs: seq<(string, string)>, r: Affected)
    requires Detect.MovesExactly(commands, pairs) && Commands.IsNamed(fs, CanonPairs(pairs, canon), r)
    ensures MovedRow(fs, commands, canon, r)
  {
    var moved := CanonPairs(pairs, canon);
    var m :| m in moved && Commands.NamesPair(fs, m, r);
    var i :| 0 <= i < |moved| && moved[i] == m;
    var s, d := pairs[i].0, pairs[i].1;
    assert pairs[i] in pairs && pairs[i] == (s, d);
    assert Detect.Moved(commands, s, d);
  }

  lemma PairsRecorded(fs: FS, commands: seq<Pipelines.Command>, canon: string -> Path, pairs: seq<(string, string)>, rows: seq<Affected>)
    requires Detect.MovesExactly(commands, pairs) && Commands.NamesPairs(fs, CanonPairs(pairs, canon), rows)
    requires !Detect.NoMv(commands)
    ensures RecordsArguments(fs, commands, canon, rows)
  {
    forall s, d | Detect.Moved(commands, s, d) ensures Commands.HasNamed(fs, (canon(s), canon(d)), rows) {
      PairNamed(fs, canon, pairs, rows, s, d);
    }
    forall r | r in rows && r.target.Some? ensures MovedRow(fs, commands, canon, r) {
      RowIsMoved(fs, commands, canon, pairs, r);
    }
  }

  lemma ArgumentsRecorded(cfg: Config, fs: FS, snaps: Snaps, pl: Pipelines.Pipeline, canon: string -> Path, rows: seq<Affected>)
    requires Commands.Recorded(cfg, fs, snaps, CommandOf(pl, canon), rows)
    ensures RecordsArguments(fs, pl.commands, canon, rows)
  {
    if Detect.HasMv(pl) {
      Detect.PairsAre(pl.commands);
      var pairs := Detect.AllPairs(pl.commands);
      Commands.MovesNamePairs(cfg, fs, snaps, CanonPairs(pairs, canon), rows);
      PairsRecorded(fs, pl.commands, canon, pairs, rows);
    } else {
      Detect.TargetsAre(pl.commands);
      var targets := Detect.AllTargets(pl.commands);
      forall q ensures q in PathsOf(rows) <==> exists a :: Detect.Touched(pl.commands, a) && q in TreeOf(fs, canon(a)) {
        TargetsRecorded(cfg, fs, snaps, pl.commands, canon, targets, rows, q);
      }
    }
  }

  function RowsOf(events: seq<Event>): seq<seq<Affected>> {
    seq(|events|, i requires 0 <= i < |events| => events[i].affected)
  }

  lemma SplitOne(rows: seq<Affected>, dirs: seq<Affected>, files: seq<Affected>)
    requires |rows| > 0
    ensures dirs + Dirs(rows) == (if IsDirRow(rows[0]) then dirs + [rows[0]] else dirs) + Dirs(rows[1..])
    ensures files + Files(rows) == (if IsFileRow(rows[0]) then files + [rows[0]] else files) + Files(rows[1..])
  {
    Associative(dirs, [rows[0]], Dirs(rows[1..]));
    Associative(files, [rows[0]], Files(rows[1..]));
  }

  class History {
    const store: Store
    const sn: Snapshotter
    /** The id of the event in flight; "" when there is none. */
    var pending: EventId

    constructor (store: Store, sn: Snapshotter)
      ensures this.store == store && this.sn == sn && pending == ""
    {
      this.store, this.sn, pending := store, sn, "";
    }

    /** The loop of Before over the mv pairs. */
    method SnapshotMoves(pairs: seq<(Path, Path)>) returns (rows: seq<Affected>)
      requires sn.disk.Valid()
      modifies sn.disk`snaps, sn.disk`nextDir
      ensures sn.disk.Valid() && Extends(old(sn.disk.snaps), sn.disk.snaps)
      ensures Commands.MovesRecorded(sn.cfg, sn.disk.fs, sn.disk.snaps, pairs, rows)
      ensures pairs == [] ==> rows == []
    {
      rows := [];
      for i := 0 to |pairs|
        invariant sn.disk.Valid() && Extends(old(sn.disk.snaps), sn.disk.snaps)
        invariant Commands.MovesRecorded(sn.cfg, sn.disk.fs, sn.disk.snaps, pairs[..i], rows)
      {
        ghost var before, snaps := rows, sn.disk.snaps;
        var more := sn.SnapshotMove(pairs[i].0, pairs[i].1);
        rows := rows + more;
        Commands.MovesGrow(sn.cfg, sn.disk.fs, snaps, sn.disk.snaps, pairs[..i], before);
        assert pairs[..i + 1][..i] == pairs[..i];
        assert rows[..|before|] == before && rows[|before|..] == more;
      }
      assert pairs[..|pairs|] == pairs;
    }

    /** The snapshots Before takes of what a destructive pipeline will touch. */
    method SaveTargets(pl: Pipelines.Pipeline, canon: string -> Path) returns (rows: seq<Affected>)
      requires sn.disk.Valid()
      modifies sn.disk`snaps, sn.disk`nextDir
      ensures sn.disk.Valid() && Extends(old(sn.disk.snaps), sn.disk.snaps)
      ensures Commands.Recorded(sn.cfg, sn.disk.fs, sn.disk.snaps, CommandOf(pl, canon), rows)
      ensures RecordsArguments(sn.disk.fs, pl.commands, canon, rows)
    {
      var names := Detect.RenameTargets(pl);
      rows := SnapshotMoves(CanonPairs(names, canon));
      if !Detect.HasMv(pl) {
        NoMvNoPairs(pl.commands);
        var targets := Detect.TargetPaths(pl);
        var more := sn.SnapshotMany(Canon(targets, canon));
        assert rows + more == more;
        rows := rows + more;
      }
      ArgumentsRecorded(sn.cfg, sn.disk.fs, sn.disk.snaps, pl, canon, rows);
    }

    /** Before, for a fresh event id and the clock's time. rows is what it tried to record. */
    method Before(pl: Pipelines.Pipeline, line: string, canon: string -> Path, id: EventId, now: int)
      returns (rows: seq<Affected>)
      requires sn.disk.Valid()
      modifies `pending, store, sn.disk`snaps, sn.disk`nextDir
      ensures sn.disk.Valid() && Extends(old(sn.disk.snaps), sn.disk.snaps)
      ensures !Detect.IsDestructive(pl) ==> rows == [] && pending == "" && store.log == old(store.log)
      ensures Detect.IsDestructive(pl) ==>
                && Commands.Recorded(sn.cfg, sn.disk.fs, sn.disk.snaps, CommandOf(pl, canon), rows)
                && RecordsArguments(sn.disk.fs, pl.commands, canon, rows)
                && var command := if pl.tainted then "[REDACTED:tainted]" else line;
                   var out := Appended(old(store.log), Event(id, now, KindSnapshot, "", command, rows, None, 0));
                   store.log == out.0 && pending == if out.1 then id else ""
    {
      rows := [];
      if !Detect.IsDestructive(pl) {
        pending := "";
        return;
      }
      rows := SaveTargets(pl, canon);
      var command := if pl.tainted then REDACTED_TAINTED else line;
      var ok := store.Append(Event(id, now, KindSnapshot, "", command, rows, None, 0));
      pending := if ok then id else "";
    }

    /** After closes the event Before opened, if there is one. */
    method After(exitCode: int, nanos: int)
      modifies this, store
      ensures pending == ""
      ensures store.log == if old(pending) == "" then old(store.log) else Finalized(old(store.log), old(pending), exitCode, nanos).0
    {
      if pending == "" {
        return;
      }
      var id := pending;
      pending := "";
      var _ := store.Finalize(id, exitCode, nanos);
    }

    method SplitDirsAndFiles(affected: seq<Affected>) returns (dirs: seq<Affected>, files: seq<Affected>)
      ensures dirs == Dirs(affected) && files == Files(affected)
    {
      dirs, files := [], [];
      for i := 0 to |affected|
        invariant dirs + Dirs(affected[i..]) == Dirs(affected)
        invariant files + Files(affected[i..]) == Files(affected)
      {
        var a := affected[i];
        ghost var rest := affected[i..];
        assert rest[0] == a && rest[1..] == affected[i + 1..];
        SplitOne(rest, dirs, files);
        match a.op {
          case OpDelete =>
            if a.dir.None? { dirs := dirs + [a]; } else { files := files + [a]; }
          case OpRename =>
            if a.dir.None? { dirs := dirs + [a]; } else { files := files + [a]; }
          case OpModify =>
            if a.dir.Some? { files := files + [a]; }
          case _ =>
        }
      }
    }

    /** One of the two loops of RestoreEvent. */
    method RestoreRows(rows: seq<Affected>) returns (ok: bool)
      modifies sn.disk`fs
      ensures RestoreAll(sn.disk.snaps, old(sn.disk.fs), rows) == Outcome(sn.disk.fs, ok)
    {
      ok := true;
      for i := 0 to |rows|
        invariant var all := RestoreAll(sn.disk.snaps, old(sn.disk.fs), rows);
                  var rest := RestoreAll(sn.disk.snaps, sn.disk.fs, rows[i..]);
                  all.fs == rest.fs && all.ok == (ok && rest.ok)
      {
        assert rows[i..][1..] == rows[i + 1..];
        var good := sn.Restore(rows[i]);
        ok := ok && good;
      }
    }

    /** RestoreEvent. */
    method Replay(ev: Event) returns (ok: bool)
      modifies sn.disk`fs
      ensures RestoreEvent(sn.disk.snaps, old(sn.disk.fs), ev.affected) == Outcome(sn.disk.fs, ok)
    {
      var dirs, files := SplitDirsAndFiles(ev.affected);
      var first := RestoreRows(dirs);
      var second := RestoreRows(files);
      RestoreInTwo(sn.disk.snaps, old(sn.disk.fs), dirs, files);
      ok := first && second;
    }

    /** LatestRestorable, given what its query selects from the log. */
    method LatestRestorable(newest: Option<Event>) returns (ev: Option<Event>)
      requires AnswersLatest(store.log.events, newest)
      ensures ev == Chosen(newest)
    {
      if newest.None? {
        return None;
      }
      var rows := newest.value.affected;
      for i := 0 to |rows|
        invariant forall k :: 0 <= k < i ==> !Restorable(rows[k])
      {
        if Restorable(rows[i]) {
          return newest;
        }
      }
      ev := None;
    }

    /** undo: exit code 0 exactly when there was something to restore and all of it was. */
    method Undo(args: seq<string>, newest: Option<Event>) returns (code: int)
      requires AnswersLatest(store.log.events, newest)
      modifies sn.disk`fs
      ensures args != [] ==> sn.disk.fs == old(sn.disk.fs) && code == 2
      ensures args == [] ==>
                && sn.disk.fs == Undone(sn.disk.snaps, old(sn.disk.fs), newest).fs
                && code == if Undone(sn.disk.snaps, old(sn.disk.fs), newest).ok then 0 else 1
    {
      if |args| > 0 {
        return 2;
      }
      var ev := LatestRestorable(newest);
      if ev.None? {
        return 1;
      }
      var ok := Replay(ev.value);
      code := if ok then 0 else 1;
    }

    /** history rollback, given what the two queries select from the log. */
    method HistoryRollback(args: seq<string>, cp: Option<Event>, events: seq<Event>)
      returns (code: int, restored: nat, failed: nat)
      requires |args| == 1 && args[0] != "" ==> AnswersCheckpoint(store.log.events, args[0], cp)
      requires cp.Some? ==> AnswersSince(store.log.events, cp.value.ts, events)
      modifies sn.disk`fs
      ensures |args| != 1 || args[0] == "" ==> sn.disk.fs == old(sn.disk.fs) && code == 2
      ensures |args| == 1 && args[0] != "" && cp.None? ==> sn.disk.fs == old(sn.disk.fs) && code == 1
      ensures |args| == 1 && args[0] != "" && cp.Some? ==>
                && RollbackAll(sn.disk.snaps, old(sn.disk.fs), RowsOf(events)) == Tally(sn.disk.fs, restored, failed)
                && code == if failed > 0 then 1 else 0
    {
      code, restored, failed := 0, 0, 0;
      if |args| != 1 || args[0] == "" {
        return 2, 0, 0;
      }
      if cp.None? {
        return 1, 0, 0;
      }
      for i := 0 to |events|
        invariant var all := RollbackAll(sn.disk.snaps, old(sn.disk.fs), RowsOf(events));
                  var rest := RollbackAll(sn.disk.snaps, sn.disk.fs, RowsOf(events[i..]));
                  all == Tally(rest.fs, restored + rest.restored, failed + rest.failed)
      {
        assert RowsOf(events[i..])[1..] == RowsOf(events[i + 1..]);
        var ok := Replay(events[i]);
        if !ok {
          failed := failed + 1;
        } else {
          restored := restored + 1;
        }
      }
      code := if failed > 0 then 1 else 0;
    }
  }

  // ---- which event undo replays ----

  predicate SomethingToRestore(rows: seq<Affected>) {
    exists r :: r in rows && Restorable(r)
  }

  /** The event LatestRestorable goes for: the newest, unless no row of it has bytes saved. */
  function Chosen(newest: Option<Event>): Option<Event> {
    if newest.Some? && SomethingToRestore(newest.value.affected) then newest else None
  }

  /** What undo makes of the disk, and whether it reports success. */
  function Undone(snaps: Snaps, fs: FS, newest: Option<Event>): Outcome {
    match Chosen(newest)
    case None => Outcome(fs, false)
    case Some(e) => RestoreEvent(snaps, fs, e.affected)
  }

  /** The log after a command has been recorded, has ended and has been closed. */
  function Ran(log: Log, e: Event, code: int, nanos: int): Log {
    Finalized(Appended(log, e).0, e.id, code, nanos).0
  }

  /** A new event that is recorded and closed is the newest finished one. */
  lemma RanIsNewest(log: Log, e: Event, code: int, nanos: int, newest: Option<Event>)
    requires IndexAgrees(log) && e.kind == KindSnapshot && e.id != "" && e.id !in Ids(log.events) && Distinct(e.affected)
    requires forall x :: x in log.events ==> x.ts < e.ts
    requires AnswersLatest(Ran(log, e, code, nanos).events, newest)
    ensures newest == Some(e.(exitCode := Some(code), durationMs := Millis(nanos)))
  {
    var added := e.(exitCode := None);
    var closed := e.(exitCode := Some(code), durationMs := Millis(nanos));
    AppendAgrees(log, e);
    var events := log.events + [added];
    assert events[|log.events|] == added && added in events;
    var after := SetExit(events, e.id, code, Millis(nanos));
    assert after[|log.events|] == closed;
    forall x | x in after && x != closed ensures x.ts < e.ts {
      var i :| 0 <= i < |after| && after[i] == x;
      assert log.events[i] in log.events;
    }
    LatestIs(after, closed, newest);
  }

  /** Some recorded path was a regular file. */
  ghost predicate RecordsFile(fs: FS, rows: seq<Affected>) {
    exists r :: r in rows && IsFile(fs, r.path)
  }

  /** Of a complete and truthful record, the restorable rows are those of regular files. */
  lemma RestorableIffFile(fs: FS, snaps: Snaps, rows: seq<Affected>)
    requires Record(fs, snaps, rows)
    ensures forall r :: r in rows ==> (Restorable(r) <==> IsFile(fs, r.path))
    ensures SomethingToRestore(rows) <==> RecordsFile(fs, rows)
  {
    forall r | r in rows ensures Restorable(r) <==> IsFile(fs, r.path) { RecordMember(fs, snaps, rows, r); }
  }

  /** undo right after a covered command, from the log alone: it goes for that command's event.
      When some recorded path was a regular file, the disk is back to before the command if
      and only if every fresh target is settled; when none was, undo does nothing, so the disk
      is as before only if the command did nothing, either. */
  lemma UndoAfterCommand(cfg: Config, snaps: Snaps, more: Snaps, cmd: Commands.Command, run: seq<FS>,
                         log: Log, e: Event, code: int, nanos: int, newest: Option<Event>)
    requires Commands.Run(cmd, run) && WF(run[0])
    requires Commands.Recorded(cfg, run[0], snaps, cmd, e.affected) && Commands.Covered(e.affected) && Extends(snaps, more)
    requires IndexAgrees(log) && e.kind == KindSnapshot && e.id != "" && e.id !in Ids(log.events)
    requires forall x :: x in log.events ==> x.ts < e.ts
    requires AnswersLatest(Ran(log, e, code, nanos).events, newest)
    ensures newest == Some(e.(exitCode := Some(code), durationMs := Millis(nanos)))
    ensures var last := run[|run| - 1]; var undone := Undone(more, last, newest);
      if RecordsFile(run[0], e.affected) then undone.ok && (undone.fs == run[0] <==> Commands.Settled(run[0], cmd, last))
      else undone == Outcome(last, false)
  {
    RanIsNewest(log, e, code, nanos, newest);
    Commands.UndoExact(cfg, snaps, more, cmd, e.affected, run);
    Commands.CoveredRecord(cfg, run[0], snaps, cmd, e.affected);
    RestorableIffFile(run[0], snaps, e.affected);
  }

  /** The rm -r of an empty directory is recorded and could be undone, but no row of it has
      bytes, so undo says there is nothing to undo and the directory stays gone. */
  lemma EmptyDirNotUndone(cfg: Config, snaps: Snaps, fs: FS, dir: Path, id: EventId, ts: int)
    requires WF(fs) && dir != [] && IsDir(fs, dir) && forall q :: q in fs ==> !Above(dir, q)
    ensures var rows := [Bare(dir, OpDelete, NoReason)]; var after := fs - {dir};
      && Commands.Recorded(cfg, fs, snaps, Commands.Rm([dir]), rows) && Commands.Covered(rows)
      && Commands.Run(Commands.Rm([dir]), [fs, after])
      && RestoreEvent(snaps, after, rows) == Outcome(fs, true)
      && Undone(snaps, after, Some(Event(id, ts, KindSnapshot, "", "rm -r", rows, Some(0), 0))) == Outcome(after, false)
      && after != fs
  {
    var row := Bare(dir, OpDelete, NoReason);
    var after := fs - {dir};
    DirRecorded(cfg, fs, snaps, dir);
    assert Covers(dir, dir) && dir in [dir] && after == Remove(fs, dir);
    assert Commands.Step(fs, Commands.Rm([dir]), fs, after);
    assert Commands.Run(Commands.Rm([dir]), [fs, after]);
    Commands.RmUndoExact(cfg, snaps, snaps, [dir], [row], [fs, after]);
    assert !Restorable(row) && !SomethingToRestore([row]);
    assert dir in fs && dir !in after;
  }

  lemma DirRecorded(cfg: Config, fs: FS, snaps: Snaps, dir: Path)
    requires IsDir(fs, dir) && forall q :: q in fs ==> !Above(dir, q)
    ensures Commands.Recorded(cfg, fs, snaps, Commands.Rm([dir]), [Bare(dir, OpDelete, NoReason)])
  {
    var row := Bare(dir, OpDelete, NoReason);
    assert PathsOf([row]) == {dir} == TreeOf(fs, dir);
    assert TreeRows(cfg, fs, snaps, dir, [row]);
    assert [row][0..] == [row] && [row][..0] == [] && [dir][..0] == [];
    assert ManyRows(cfg, fs, snaps, [dir][..0], [row][..0]);
  }

  // ---- from a command to the log ----

  /** An rm is recorded, and so can be undone, exactly when no target is named twice and none
      that exists lies below another. */
  lemma RmLoggedIff(cfg: Config, fs: FS, snaps: Snaps, targets: seq<Path>, rows: seq<Affected>, log: Log, e: Event)
    requires IndexAgrees(log) && e.id != "" && e.id !in Ids(log.events)
    requires Commands.Recorded(cfg, fs, snaps, Commands.Rm(targets), rows) && e.affected == rows
    ensures Appended(log, e).1 <==> TreesApart(fs, targets)
    ensures !TreesApart(fs, targets) ==> Appended(log, e).0 == log
  {
    AppendAgrees(log, e);
    RecordableIff(cfg, fs, snaps, targets, rows);
  }

  // ---- from the log to the rollback theorem ----

  /** The finished snapshot events after ts are the entries, in log order. */
  ghost predicate LoggedAs(events: seq<Event>, ts: int, entries: seq<Entry>) {
    if events == [] then entries == []
    else
      var init, last := events[..|events| - 1], events[|events| - 1];
      if Since(last, ts) then
        entries != [] && entries[|entries| - 1].rows == last.affected && LoggedAs(init, ts, entries[..|entries| - 1])
      else LoggedAs(init, ts, entries)
  }

  lemma {:induction false} LoggedNewestFirst(events: seq<Event>, ts: int, entries: seq<Entry>)
    requires LoggedAs(events, ts, entries)
    ensures RowsOf(Matching(events, ts)) == NewestFirst(entries)
    decreases |events|
  {
    if events != [] {
      var init, last := events[..|events| - 1], events[|events| - 1];
      if Since(last, ts) {
        LoggedNewestFirst(init, ts, entries[..|entries| - 1]);
        var out := Matching(events, ts);
        assert out == [last] + Matching(init, ts);
        assert RowsOf(out) == [last.affected] + RowsOf(Matching(init, ts));
      } else {
        LoggedNewestFirst(init, ts, entries);
      }
    }
  }

  /** history rollback is correct: take a log with increasing timestamps whose finished
      snapshot events since the checkpoint are covered commands, each run to any point, while
      nobody else wrote to the affected paths, and let nothing that a command left be at or
      above a path that an older one's rows name. Whatever EventsSinceCheckpoint answers,
      replaying it restores every event, and every affected path is back to its state at the
      checkpoint if and only if every command is settled. */
  lemma RollbackCorrect(cfg: Config, log: Log, cp: Event, out: seq<Event>, entries: seq<Entry>,
                        paths: set<Path>, snaps: Snaps, start: FS, now: FS)
    requires Increasing(log.events) && AnswersSince(log.events, cp.ts, out)
    requires LoggedAs(log.events, cp.ts, entries) && LeftApart(entries)
    requires Chain(cfg, paths, snaps, start, entries, now) && WF(now) && Unblocked(paths, now)
    ensures forall e :: e in out ==> e in log.events && e.kind == KindSnapshot && e.ts > cp.ts && e.exitCode.Some?
    ensures var tally := RollbackAll(snaps, now, RowsOf(out));
      && tally.failed == 0 && tally.restored == |entries|
      && (SameOn(paths, tally.fs, start) <==> forall i :: 0 <= i < |entries| ==> EntrySettled(entries[i]))
  {
    SinceIsReverse(log.events, cp.ts, out);
    LoggedNewestFirst(log.events, cp.ts, entries);
    RollbackExact(cfg, paths, snaps, start, entries, now);
  }
}
