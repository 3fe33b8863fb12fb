/** Rolling back a whole suffix of the log, newest event first. */
module Rollback {
  import opened Wrappers
  import opened FileSystem
  import opened Snapshot
  import opened Undo
  import opened Commands

  datatype Tally = Tally(fs: FS, restored: nat, failed: nat)

  /** The loop of historyRollback over the rows of the events, in the order given. */
  function RollbackAll(snaps: Snaps, fs: FS, events: seq<seq<Affected>>): Tally
    decreases |events|
  {
    if events == [] then Tally(fs, 0, 0)
    else
      var one := RestoreEvent(snaps, fs, events[0]);
      var rest := RollbackAll(snaps, one.fs, events[1..]);
      if one.ok then rest.(restored := rest.restored + 1) else rest.(failed := rest.failed + 1)
  }

  /** One logged command: what Before recorded, the store at that time, and the run of the
      command, from its start to wherever it stopped. */
  datatype Entry = Entry(cmd: Command, rows: seq<Affected>, snaps: Snaps, run: seq<FS>)

  ghost function Pre(en: Entry): FS
    requires en.run != []
  {
    en.run[0]
  }

  ghost function Post(en: Entry): FS
    requires en.run != []
  {
    en.run[|en.run| - 1]
  }

  /** Every path a row names. */
  function Footprint(rows: seq<Affected>): set<Path> {
    PathsOf(rows) + set r | r in rows && r.target.Some? :: r.target.value
  }

  ghost predicate SameOn(paths: set<Path>, a: FS, b: FS) {
    forall p :: p in paths ==> SameAt(a, b, p)
  }

  /** No regular file sits where a directory above one of the paths belongs, unless that
      place is itself one of the paths. */
  ghost predicate Unblocked(paths: set<Path>, fs: FS) {
    forall p, q :: p in paths && Above(q, p) && q !in paths && q in fs ==> fs[q].Dir?
  }

  ghost predicate EntryOk(cfg: Config, paths: set<Path>, snaps: Snaps, en: Entry) {
    && Run(en.cmd, en.run) && WF(Pre(en))
    && Recorded(cfg, Pre(en), en.snaps, en.cmd, en.rows) && Covered(en.rows)
    && Extends(en.snaps, snaps)
    && Footprint(en.rows) <= paths
  }

  /** From the checkpoint on, only the logged commands write to the paths. */
  ghost predicate Chain(cfg: Config, paths: set<Path>, snaps: Snaps, start: FS, entries: seq<Entry>, end: FS) {
    if entries == [] then SameOn(paths, start, end)
    else
      var last := entries[|entries| - 1];
      && EntryOk(cfg, paths, snaps, last)
      && Chain(cfg, paths, snaps, start, entries[..|entries| - 1], Pre(last))
      && SameOn(paths, Post(last), end)
  }

  /** The rows of the entries, newest first. */
  function NewestFirst(entries: seq<Entry>): seq<seq<Affected>> {
    if entries == [] then []
    else [entries[|entries| - 1].rows] + NewestFirst(entries[..|entries| - 1])
  }

  // ---- undoing one event while others wrote elsewhere ----

  /** What undoing an event recorded on pre makes of cur. */
  ghost function Target(pre: FS, rows: seq<Affected>, cur: FS): FS {
    var foot := Footprint(rows);
    var mine := map p | p in foot && p in pre :: pre[p];
    var others := map p | p in cur && p !in foot :: cur[p];
    var missing := set r, n: nat | r in rows && r.op != OpAbsent && n < |r.path| :: r.path[..n];
    var parents := map p | p in missing && p !in foot && p !in cur :: Dir;
    parents + others + mine
  }

  ghost predicate NeedsDir(rows: seq<Affected>, p: Path) {
    exists r :: r in rows && r.op != OpAbsent && Above(p, r.path)
  }

  lemma TargetIs(pre: FS, rows: seq<Affected>, cur: FS, p: Path)
    ensures var g := Target(pre, rows, cur);
      if p in Footprint(rows) then SameAt(g, pre, p)
      else if p in cur then SameAt(g, cur, p)
      else (p in g <==> NeedsDir(rows, p)) && (p in g ==> g[p] == Dir)
  {
    if p !in Footprint(rows) && p !in cur && NeedsDir(rows, p) {
      var r :| r in rows && r.op != OpAbsent && Above(p, r.path);
      var n: nat := |p|;
      assert r.path[..n] == p;
    }
  }

  lemma {:induction false} RecordSame(a: FS, b: FS, snaps: Snaps, rows: seq<Affected>)
    requires Record(a, snaps, rows) && SameOn(Footprint(rows), b, a)
    ensures Record(b, snaps, rows)
  {
    if rows != [] {
      var r := rows[0];
      assert r in rows && r.path in Footprint(rows);
      assert SameAt(b, a, r.path);
      if r.target.Some? { assert r.target.value in Footprint(rows); assert SameAt(b, a, r.target.value); }
      assert Footprint(rows[1..]) <= Footprint(rows);
      RecordSame(a, b, snaps, rows[1..]);
    }
  }

  /** The situation in which one event is undone during a rollback. */
  ghost predicate Ready(paths: set<Path>, snaps: Snaps, pre: FS, rows: seq<Affected>, post: FS, cur: FS) {
    && WF(pre) && Record(pre, snaps, rows) && Loose(pre, rows, post)
    && Footprint(rows) <= paths
    && WF(cur) && SameOn(paths, post, cur) && Unblocked(paths, cur)
  }

  lemma TargetInFootprint(rows: seq<Affected>, p: Path)
    ensures IsTarget(rows, p) ==> p in Footprint(rows)
  {
  }

  /** Outside the footprint, the damage can only be a missing directory. */
  lemma OutsideFootprint(pre: FS, rows: seq<Affected>, post: FS, p: Path)
    requires Loose(pre, rows, post) && p !in Footprint(rows)
    ensures p in post ==> SameAt(post, pre, p)
    ensures p !in post && p in pre ==> NeedsDir(rows, p)
  {
    if !SameAt(post, pre, p) {
      TargetInFootprint(rows, p);
      var r :| r in rows && Explains(pre, post, r, p);
      assert r.path in Footprint(rows);
      if r.target.Some? { assert r.target.value in Footprint(rows); }
      CoversParent(p, r.path);
    }
  }

  lemma NeedsDirIsDir(pre: FS, snaps: Snaps, rows: seq<Affected>, p: Path)
    requires WF(pre) && Record(pre, snaps, rows) && NeedsDir(rows, p)
    ensures IsDir(pre, p)
  {
    var r :| r in rows && r.op != OpAbsent && Above(p, r.path);
    RecordMember(pre, snaps, rows, r);
  }

  /** On the watched paths the target is the state before the command. */
  lemma TargetOnPaths(paths: set<Path>, snaps: Snaps, pre: FS, rows: seq<Affected>, post: FS, cur: FS)
    requires Ready(paths, snaps, pre, rows, post, cur)
    ensures SameOn(paths, Target(pre, rows, cur), pre)
  {
    forall p | p in paths ensures SameAt(Target(pre, rows, cur), pre, p) {
      TargetIs(pre, rows, cur, p);
      assert SameAt(post, cur, p);
      if p !in Footprint(rows) {
        OutsideFootprint(pre, rows, post, p);
        if p !in cur && NeedsDir(rows, p) { NeedsDirIsDir(pre, snaps, rows, p); }
      }
    }
  }

  /** A directory of pre that is above a recorded path is a directory of the target, too. */
  lemma AboveIsDir(paths: set<Path>, snaps: Snaps, pre: FS, rows: seq<Affected>, post: FS, cur: FS, q: Path, p: Path)
    requires Ready(paths, snaps, pre, rows, post, cur)
    requires p in paths && p in pre && Above(q, p) && (q in cur || NeedsDir(rows, q))
    ensures IsDir(Target(pre, rows, cur), q)
  {
    TargetIs(pre, rows, cur, q);
    if q in paths { assert SameAt(post, cur, q); }
    if q !in Footprint(rows) && q in cur {
      OutsideFootprint(pre, rows, post, q);
    }
  }

  /** Above a watched path of the target there are directories only. */
  lemma AboveFootprint(paths: set<Path>, snaps: Snaps, pre: FS, rows: seq<Affected>, post: FS, cur: FS, q: Path, p: Path)
    requires Ready(paths, snaps, pre, rows, post, cur)
    requires p in Footprint(rows) && p in pre && Above(q, p)
    ensures IsDir(Target(pre, rows, cur), q)
  {
    assert SameAt(post, cur, p);
    if p !in cur {
      assert !SameAt(post, pre, p);
      var r :| r in rows && Explains(pre, post, r, p);
      assert r.path[..|q|] == p[..|q|];
      assert Above(q, r.path);
    }
    AboveIsDir(paths, snaps, pre, rows, post, cur, q, p);
  }

  lemma AboveOthers(paths: set<Path>, snaps: Snaps, pre: FS, rows: seq<Affected>, post: FS, cur: FS, q: Path, p: Path)
    requires Ready(paths, snaps, pre, rows, post, cur)
    requires p !in Footprint(rows) && p in cur && Above(q, p)
    ensures IsDir(Target(pre, rows, cur), q)
  {
    TargetIs(pre, rows, cur, q);
    if q in Footprint(rows) {
      assert SameAt(post, cur, q);
      assert SameAt(post, pre, q);
    }
  }

  lemma AboveMissing(paths: set<Path>, snaps: Snaps, pre: FS, rows: seq<Affected>, post: FS, cur: FS, q: Path, p: Path)
    requires Ready(paths, snaps, pre, rows, post, cur)
    requires NeedsDir(rows, p) && Above(q, p)
    ensures IsDir(Target(pre, rows, cur), q)
  {
    var r :| r in rows && r.op != OpAbsent && Above(p, r.path);
    RecordMember(pre, snaps, rows, r);
    assert r.path[..|q|] == p[..|q|];
    assert Above(q, r.path);
    assert r.path in Footprint(rows);
    AboveIsDir(paths, snaps, pre, rows, post, cur, q, r.path);
  }

  lemma TargetWF(paths: set<Path>, snaps: Snaps, pre: FS, rows: seq<Affected>, post: FS, cur: FS)
    requires Ready(paths, snaps, pre, rows, post, cur)
    ensures WF(Target(pre, rows, cur))
  {
    var g := Target(pre, rows, cur);
    TargetIs(pre, rows, cur, []);
    forall p, q | p in g && Above(q, p) ensures IsDir(g, q) {
      TargetIs(pre, rows, cur, p);
      if p in Footprint(rows) {
        AboveFootprint(paths, snaps, pre, rows, post, cur, q, p);
      } else if p in cur {
        AboveOthers(paths, snaps, pre, rows, post, cur, q, p);
      } else {
        AboveMissing(paths, snaps, pre, rows, post, cur, q, p);
      }
    }
  }

  lemma TargetLoose(paths: set<Path>, snaps: Snaps, pre: FS, rows: seq<Affected>, post: FS, cur: FS)
    requires Ready(paths, snaps, pre, rows, post, cur)
    ensures Loose(Target(pre, rows, cur), rows, cur)
  {
    var g := Target(pre, rows, cur);
    forall p ensures SameAt(cur, g, p) || Left(g, rows, cur, p) || exists r :: r in rows && Explains(g, cur, r, p) {
      TargetIs(pre, rows, cur, p);
      if p in Footprint(rows) {
        assert SameAt(post, cur, p);
        if !SameAt(post, pre, p) && !Left(pre, rows, post, p) {
          var r :| r in rows && Explains(pre, post, r, p);
          assert Explains(g, cur, r, p);
        }
      } else if p !in cur && p in g {
        var r :| r in rows && r.op != OpAbsent && Above(p, r.path);
        assert Explains(g, cur, r, p);
      }
    }
  }

  /** The same is left in cur, over the target, as the command left behind. */
  lemma SameLeft(paths: set<Path>, snaps: Snaps, pre: FS, rows: seq<Affected>, post: FS, cur: FS, p: Path)
    requires Ready(paths, snaps, pre, rows, post, cur)
    ensures Left(Target(pre, rows, cur), rows, cur, p) <==> Left(pre, rows, post, p)
    ensures Left(pre, rows, post, p) ==> p in paths
  {
    TargetInFootprint(rows, p);
    if p in Footprint(rows) {
      TargetIs(pre, rows, cur, p);
      assert SameAt(post, cur, p);
    }
  }

  ghost predicate NothingLeft(pre: FS, rows: seq<Affected>, post: FS) {
    forall p :: !Left(pre, rows, post, p)
  }

  /** One undo inside a rollback succeeds and blocks nothing above the watched paths. It takes
      those back to before its command exactly when the command left nothing at a fresh target. */
  lemma UndoAmongOthers(paths: set<Path>, snaps: Snaps, pre: FS, rows: seq<Affected>, post: FS, cur: FS)
    requires Ready(paths, snaps, pre, rows, post, cur)
    ensures var undone := RestoreEvent(snaps, cur, rows);
      && undone.ok && WF(undone.fs) && Unblocked(paths, undone.fs)
      && (forall p :: p in paths ==> SameAt(undone.fs, if Left(pre, rows, post, p) then post else pre, p))
      && (SameOn(paths, undone.fs, pre) <==> NothingLeft(pre, rows, post))
  {
    var g := Target(pre, rows, cur);
    TargetWF(paths, snaps, pre, rows, post, cur);
    TargetLoose(paths, snaps, pre, rows, post, cur);
    RecordSame(pre, g, snaps, rows) by { FootprintSame(pre, rows, cur); }
    RestoreEventLeaves(g, snaps, rows, cur);
    UndoneIs(paths, snaps, pre, rows, post, cur);
    UndoneIsPre(paths, snaps, pre, rows, post, cur);
    UndoneUnblocked(paths, snaps, pre, rows, post, cur);
  }

  lemma FootprintSame(pre: FS, rows: seq<Affected>, cur: FS)
    ensures SameOn(Footprint(rows), Target(pre, rows, cur), pre)
  {
    forall p | p in Footprint(rows) ensures SameAt(Target(pre, rows, cur), pre, p) { TargetIs(pre, rows, cur, p); }
  }

  /** On a watched path stands what was left there, or else what was there before. */
  lemma UndoneIs(paths: set<Path>, snaps: Snaps, pre: FS, rows: seq<Affected>, post: FS, cur: FS)
    requires Ready(paths, snaps, pre, rows, post, cur)
    ensures forall p :: p in paths ==>
              SameAt(WithLeft(Target(pre, rows, cur), rows, cur), if Left(pre, rows, post, p) then post else pre, p)
  {
    var g := Target(pre, rows, cur);
    TargetOnPaths(paths, snaps, pre, rows, post, cur);
    forall p | p in paths ensures SameAt(WithLeft(g, rows, cur), if Left(pre, rows, post, p) then post else pre, p) {
      SameLeft(paths, snaps, pre, rows, post, cur, p);
      WithLeftIs(g, rows, cur, p);
      assert SameAt(g, pre, p) && SameAt(post, cur, p);
    }
  }

  lemma UndoneIsPre(paths: set<Path>, snaps: Snaps, pre: FS, rows: seq<Affected>, post: FS, cur: FS)
    requires Ready(paths, snaps, pre, rows, post, cur)
    ensures SameOn(paths, WithLeft(Target(pre, rows, cur), rows, cur), pre) <==> NothingLeft(pre, rows, post)
  {
    UndoneIs(paths, snaps, pre, rows, post, cur);
    forall p | Left(pre, rows, post, p) ensures p in paths { SameLeft(paths, snaps, pre, rows, post, cur, p); }
  }

  lemma UndoneUnblocked(paths: set<Path>, snaps: Snaps, pre: FS, rows: seq<Affected>, post: FS, cur: FS)
    requires Ready(paths, snaps, pre, rows, post, cur)
    ensures Unblocked(paths, WithLeft(Target(pre, rows, cur), rows, cur))
  {
    var g := Target(pre, rows, cur);
    forall p, q | p in paths && Above(q, p) && q !in paths && q in WithLeft(g, rows, cur) ensures WithLeft(g, rows, cur)[q].Dir? {
      SameLeft(paths, snaps, pre, rows, post, cur, q);
      WithLeftIs(g, rows, cur, q);
      TargetIs(pre, rows, cur, q);
    }
  }

  // ---- the theorem ----

  lemma EntryReady(cfg: Config, paths: set<Path>, snaps: Snaps, en: Entry, cur: FS)
    requires EntryOk(cfg, paths, snaps, en)
    requires SameOn(paths, Post(en), cur) && WF(cur) && Unblocked(paths, cur)
    ensures Ready(paths, snaps, Pre(en), en.rows, Post(en), cur)
    ensures NothingLeft(Pre(en), en.rows, Post(en)) <==> EntrySettled(en)
  {
    CoveredRecord(cfg, Pre(en), en.snaps, en.cmd, en.rows);
    RecordGrows(Pre(en), en.snaps, snaps, en.rows);
    RunReached(cfg, en.snaps, en.cmd, en.rows, en.run, |en.run| - 1);
    SettledIff(cfg, Pre(en), en.snaps, en.cmd, en.rows, Post(en));
  }

  /** The command of the entry left nothing of a broken or chained move at a fresh target. */
  ghost predicate EntrySettled(en: Entry) {
    en.run != [] && Settled(Pre(en), en.cmd, Post(en))
  }

  /** The command of the entry left a file at p, which was free before. */
  ghost predicate LeftBy(en: Entry, p: Path) {
    en.run != [] && Left(Pre(en), en.rows, Post(en), p)
  }

  /** Nothing that a command left is at or above a path that an older command's rows name. */
  ghost predicate LeftApart(entries: seq<Entry>) {
    forall i, j, p :: 0 <= i < j < |entries| && LeftBy(entries[j], p) ==> ClearOf(entries[i].rows, p)
  }

  /** p is not at or above any path the rows name. */
  ghost predicate ClearOf(rows: seq<Affected>, p: Path) {
    forall f :: f in Footprint(rows) ==> !Covers(p, f)
  }

  ghost predicate AllClearOf(entries: seq<Entry>, p: Path) {
    forall i :: 0 <= i < |entries| ==> ClearOf(entries[i].rows, p)
  }

  lemma NewestUndone(cfg: Config, paths: set<Path>, snaps: Snaps, en: Entry, cur: FS)
    requires EntryOk(cfg, paths, snaps, en)
    requires SameOn(paths, Post(en), cur) && WF(cur) && Unblocked(paths, cur)
    ensures var undone := RestoreEvent(snaps, cur, en.rows);
      && undone.ok && WF(undone.fs) && Unblocked(paths, undone.fs)
      && forall p :: p in paths ==> SameAt(undone.fs, if LeftBy(en, p) then Post(en) else Pre(en), p)
  {
    EntryReady(cfg, paths, snaps, en, cur);
    UndoAmongOthers(paths, snaps, Pre(en), en.rows, Post(en), cur);
  }

  ghost predicate LeftNothing(en: Entry) {
    forall p :: !LeftBy(en, p)
  }

  /** An entry is settled exactly when it left nothing. */
  lemma SettledIffLeftNothing(cfg: Config, paths: set<Path>, snaps: Snaps, en: Entry)
    requires EntryOk(cfg, paths, snaps, en)
    ensures EntrySettled(en) <==> LeftNothing(en)
  {
    RunReached(cfg, en.snaps, en.cmd, en.rows, en.run, |en.run| - 1);
    SettledIff(cfg, Pre(en), en.snaps, en.cmd, en.rows, Post(en));
    assert forall p :: LeftBy(en, p) <==> Left(Pre(en), en.rows, Post(en), p);
  }

  /** Whatever an entry left is at a watched path that was free before. */
  lemma LeftIsFresh(cfg: Config, paths: set<Path>, snaps: Snaps, en: Entry, p: Path)
    requires EntryOk(cfg, paths, snaps, en) && LeftBy(en, p)
    ensures p in paths && IsFile(Post(en), p) && p !in Pre(en)
  {
    TargetInFootprint(en.rows, p);
  }

  // ---- paths that the older commands do not name ----

  lemma FileKeeps(snaps: Snaps, fs: FS, r: Affected, force: bool, p: Path)
    requires !Covers(p, r.path)
    ensures SameAt(RestoreFile(snaps, fs, r, force).fs, fs, p)
  {
    MkdirAllKeeps(fs, Parent(r.path));
    CoversParent(p, r.path);
    assert Covers(r.path, r.path);
  }

  lemma DirKeeps(fs: FS, q: Path, p: Path)
    requires !Covers(p, q)
    ensures SameAt(MkdirAll(fs, q).fs, fs, p)
  {
    MkdirAllKeeps(fs, q);
  }

  /** Restoring a row leaves alone every path that is not at or above one it names. */
  lemma RowKeeps(snaps: Snaps, fs: FS, r: Affected, p: Path)
    requires !Covers(p, r.path) && r.target != Some(p)
    ensures SameAt(RestoreRow(snaps, fs, r).fs, fs, p)
  {
    DirKeeps(fs, r.path, p);
    FileKeeps(snaps, fs, r, r.op == OpModify, p);
  }

  lemma RowClear(rows: seq<Affected>, r: Affected, p: Path)
    requires ClearOf(rows, p) && r in rows
    ensures !Covers(p, r.path) && r.target != Some(p)
  {
    assert r.path in Footprint(rows);
    if r.target.Some? { assert r.target.value in Footprint(rows); }
    assert Covers(p, p);
  }

  lemma {:induction false} RestoreKeeps(snaps: Snaps, fs: FS, rows: seq<Affected>, all: seq<Affected>, p: Path)
    requires ClearOf(all, p) && forall r :: r in rows ==> r in all
    ensures SameAt(RestoreAll(snaps, fs, rows).fs, fs, p)
    decreases |rows|
  {
    if rows != [] {
      RowClear(all, rows[0], p);
      RowKeeps(snaps, fs, rows[0], p);
      RestoreKeeps(snaps, RestoreRow(snaps, fs, rows[0]).fs, rows[1..], all, p);
    }
  }

  lemma EventKeeps(snaps: Snaps, fs: FS, rows: seq<Affected>, p: Path)
    requires ClearOf(rows, p)
    ensures SameAt(RestoreEvent(snaps, fs, rows).fs, fs, p)
  {
    PlanInRows(rows);
    RestoreKeeps(snaps, fs, Plan(rows), rows, p);
  }

  /** So does the rest of a rollback. */
  lemma {:induction false} RollbackKeeps(snaps: Snaps, fs: FS, entries: seq<Entry>, p: Path)
    requires AllClearOf(entries, p)
    ensures SameAt(RollbackAll(snaps, fs, NewestFirst(entries)).fs, fs, p)
    decreases |entries|
  {
    if |entries| > 0 {
      var init, last := entries[..|entries| - 1], entries[|entries| - 1];
      EventKeeps(snaps, fs, last.rows, p);
      assert NewestFirst(entries)[1..] == NewestFirst(init);
      RollbackKeeps(snaps, RestoreEvent(snaps, fs, last.rows).fs, init, p);
    }
  }

  /** And so do the commands themselves. */
  lemma EntryKeeps(cfg: Config, paths: set<Path>, snaps: Snaps, en: Entry, p: Path)
    requires EntryOk(cfg, paths, snaps, en) && ClearOf(en.rows, p)
    ensures SameAt(Post(en), Pre(en), p)
  {
    RunReached(cfg, en.snaps, en.cmd, en.rows, en.run, |en.run| - 1);
    SettledIff(cfg, Pre(en), en.snaps, en.cmd, en.rows, Post(en));
    assert Covers(p, p);
    OutsideFootprint(Pre(en), en.rows, Post(en), p);
    forall r | r in en.rows ensures !Above(p, r.path) { assert r.path in Footprint(en.rows); }
  }

  lemma {:induction false} ChainKeeps(cfg: Config, paths: set<Path>, snaps: Snaps, start: FS, entries: seq<Entry>, end: FS, p: Path)
    requires Chain(cfg, paths, snaps, start, entries, end) && p in paths && AllClearOf(entries, p)
    ensures SameAt(start, end, p)
    decreases |entries|
  {
    if |entries| > 0 {
      var init, last := entries[..|entries| - 1], entries[|entries| - 1];
      ChainKeeps(cfg, paths, snaps, start, init, Pre(last), p);
      EntryKeeps(cfg, paths, snaps, last, p);
      assert SameAt(Post(last), end, p);
    }
  }

  // ---- carrying on below what is left ----

  /** The watched paths that are not at or below anything the entry left. */
  ghost function Rest(paths: set<Path>, en: Entry): set<Path> {
    set p | p in paths && !Dropped(en, p)
  }

  ghost predicate Dropped(en: Entry, p: Path) {
    exists l :: LeftBy(en, l) && Covers(l, p)
  }

  lemma {:induction false} ChainOnRest(cfg: Config, paths: set<Path>, some: set<Path>, snaps: Snaps, start: FS, entries: seq<Entry>, end: FS)
    requires Chain(cfg, paths, snaps, start, entries, end) && some <= paths
    requires forall i :: 0 <= i < |entries| ==> Footprint(entries[i].rows) <= some
    ensures Chain(cfg, some, snaps, start, entries, end)
    decreases |entries|
  {
    if |entries| > 0 {
      ChainOnRest(cfg, paths, some, snaps, start, entries[..|entries| - 1], Pre(entries[|entries| - 1]));
    }
  }

  lemma DroppedBelow(en: Entry, q: Path, p: Path)
    requires Dropped(en, q) && Covers(q, p)
    ensures Dropped(en, p)
  {
    var l :| LeftBy(en, l) && Covers(l, q);
    CoversTrans(l, q, p);
  }

  /** What is left of the newest entry stands in the way of nothing that is still watched. */
  lemma RestUnblocked(paths: set<Path>, en: Entry, fs: FS)
    requires Unblocked(paths, fs)
    ensures Unblocked(Rest(paths, en), fs)
  {
    forall p, q | p in Rest(paths, en) && Above(q, p) && q !in Rest(paths, en) && q in fs ensures fs[q].Dir? {
      if q in paths { DroppedBelow(en, q, p); }
    }
  }

  /** A path at or below what the newest entry left is clear of all older rows. */
  lemma DroppedClear(entries: seq<Entry>, l: Path, p: Path)
    requires LeftApart(entries) && |entries| > 0
    requires LeftBy(entries[|entries| - 1], l) && Covers(l, p)
    ensures AllClearOf(entries[..|entries| - 1], p)
  {
    forall i, f | 0 <= i < |entries| - 1 && f in Footprint(entries[i].rows) ensures !Covers(p, f) {
      assert ClearOf(entries[i].rows, l);
      if Covers(p, f) { CoversTrans(l, p, f); }
    }
  }

  // ---- the theorem ----

  /** What a rollback leaves at p: what some entry left there, or else what was there at the start. */
  ghost predicate RolledBack(start: FS, entries: seq<Entry>, after: FS, p: Path) {
    && (forall j :: 0 <= j < |entries| && LeftBy(entries[j], p) ==> SameAt(after, Post(entries[j]), p) && p !in start)
    && ((forall j :: 0 <= j < |entries| ==> !LeftBy(entries[j], p)) ==> SameAt(after, start, p))
  }

  /** The older entries, once the newest is undone. */
  lemma OlderChain(cfg: Config, paths: set<Path>, snaps: Snaps, start: FS, entries: seq<Entry>, cur: FS)
    requires |entries| > 0 && Chain(cfg, paths, snaps, start, entries, cur) && LeftApart(entries)
    requires WF(cur) && Unblocked(paths, cur)
    ensures var init, last := entries[..|entries| - 1], entries[|entries| - 1];
      var undone := RestoreEvent(snaps, cur, last.rows);
      && undone.ok && WF(undone.fs) && Unblocked(Rest(paths, last), undone.fs)
      && Chain(cfg, Rest(paths, last), snaps, start, init, undone.fs) && LeftApart(init)
      && forall p :: p in paths ==> SameAt(undone.fs, if LeftBy(last, p) then Post(last) else Pre(last), p)
  {
    var init, last := entries[..|entries| - 1], entries[|entries| - 1];
    var undone := RestoreEvent(snaps, cur, last.rows);
    NewestUndone(cfg, paths, snaps, last, cur);
    RestUnblocked(paths, last, undone.fs);
    OlderFootprints(cfg, paths, snaps, start, entries, cur);
    ChainOnRest(cfg, paths, Rest(paths, last), snaps, start, init, Pre(last));
    forall p | p in Rest(paths, last) ensures SameAt(undone.fs, Pre(last), p) {
      assert Covers(p, p);
      assert LeftBy(last, p) ==> Dropped(last, p);
    }
    ChainEnd(cfg, Rest(paths, last), snaps, start, init, Pre(last), undone.fs);
  }

  ghost predicate AllOk(cfg: Config, paths: set<Path>, snaps: Snaps, entries: seq<Entry>) {
    forall i :: 0 <= i < |entries| ==> EntryOk(cfg, paths, snaps, entries[i])
  }

  lemma {:induction false} ChainEntries(cfg: Config, paths: set<Path>, snaps: Snaps, start: FS, entries: seq<Entry>, end: FS)
    requires Chain(cfg, paths, snaps, start, entries, end)
    ensures AllOk(cfg, paths, snaps, entries)
    decreases |entries|
  {
    if |entries| > 0 {
      var init, last := entries[..|entries| - 1], entries[|entries| - 1];
      ChainEntries(cfg, paths, snaps, start, init, Pre(last));
      forall i | 0 <= i < |entries| ensures EntryOk(cfg, paths, snaps, entries[i]) {
        if i < |init| { assert entries[i] == init[i]; }
      }
    }
  }

  lemma ClearNotDropped(entries: seq<Entry>, i: nat, f: Path)
    requires LeftApart(entries) && i < |entries| - 1 && f in Footprint(entries[i].rows)
    ensures !Dropped(entries[|entries| - 1], f)
  {
    forall l | LeftBy(entries[|entries| - 1], l) ensures !Covers(l, f) { assert ClearOf(entries[i].rows, l); }
  }

  lemma OlderFootprints(cfg: Config, paths: set<Path>, snaps: Snaps, start: FS, entries: seq<Entry>, cur: FS)
    requires |entries| > 0 && Chain(cfg, paths, snaps, start, entries, cur) && LeftApart(entries)
    ensures forall i :: 0 <= i < |entries| - 1 ==> Footprint(entries[i].rows) <= Rest(paths, entries[|entries| - 1])
  {
    ChainEntries(cfg, paths, snaps, start, entries, cur);
    forall i, f | 0 <= i < |entries| - 1 && f in Footprint(entries[i].rows) ensures f in Rest(paths, entries[|entries| - 1]) {
      assert EntryOk(cfg, paths, snaps, entries[i]);
      ClearNotDropped(entries, i, f);
    }
  }

  /** A path at or below what the newest entry left keeps, through the rest of the rollback,
      what it has once the newest is undone, and was free at the start. */
  lemma DroppedStays(cfg: Config, paths: set<Path>, snaps: Snaps, start: FS, entries: seq<Entry>, cur: FS, p: Path)
    requires |entries| > 0 && Chain(cfg, paths, snaps, start, entries, cur) && LeftApart(entries)
    requires p in paths && Dropped(entries[|entries| - 1], p)
    ensures var init, last := entries[..|entries| - 1], entries[|entries| - 1];
      && AllClearOf(init, p) && p !in start && p !in Pre(last)
  {
    var init, last := entries[..|entries| - 1], entries[|entries| - 1];
    var l :| LeftBy(last, l) && Covers(l, p);
    DroppedClear(entries, l, p);
    LeftIsFresh(cfg, paths, snaps, last, l);
    CoversParent(l, p);
    ChainKeeps(cfg, paths, snaps, start, init, Pre(last), p);
  }

  /** Something at or above p that the entry left means that nothing else is left below it. */
  lemma BelowLeftIsFree(cfg: Config, paths: set<Path>, snaps: Snaps, en: Entry, undone: FS, p: Path)
    requires EntryOk(cfg, paths, snaps, en) && WF(undone) && Dropped(en, p) && !LeftBy(en, p)
    requires forall q :: q in paths ==> SameAt(undone, if LeftBy(en, q) then Post(en) else Pre(en), q)
    ensures p !in undone
  {
    var l :| LeftBy(en, l) && Covers(l, p);
    LeftIsFresh(cfg, paths, snaps, en, l);
    CoversParent(l, p);
    assert SameAt(undone, Post(en), l);
  }

  /** What an entry left is at a path its rows name. */
  lemma ClearLeftNothing(en: Entry, p: Path)
    requires ClearOf(en.rows, p)
    ensures !LeftBy(en, p)
  {
    TargetInFootprint(en.rows, p);
    assert Covers(p, p);
  }

  /** At a dropped path, what is there once the newest is undone stays. */
  lemma DroppedIs(cfg: Config, paths: set<Path>, snaps: Snaps, start: FS, entries: seq<Entry>, cur: FS, p: Path)
    requires |entries| > 0 && Chain(cfg, paths, snaps, start, entries, cur) && LeftApart(entries)
    requires WF(cur) && Unblocked(paths, cur)
    requires p in paths && Dropped(entries[|entries| - 1], p)
    ensures var last := entries[|entries| - 1]; var after := RollbackAll(snaps, cur, NewestFirst(entries)).fs;
      p !in start && if LeftBy(last, p) then SameAt(after, Post(last), p) else p !in after
  {
    var init, last := entries[..|entries| - 1], entries[|entries| - 1];
    var undone := RestoreEvent(snaps, cur, last.rows).fs;
    OlderChain(cfg, paths, snaps, start, entries, cur);
    DroppedStays(cfg, paths, snaps, start, entries, cur, p);
    assert NewestFirst(entries)[1..] == NewestFirst(init);
    RollbackKeeps(snaps, undone, init, p);
    if !LeftBy(last, p) { BelowLeftIsFree(cfg, paths, snaps, last, undone, p); }
  }

  lemma DroppedRolledBack(cfg: Config, paths: set<Path>, snaps: Snaps, start: FS, entries: seq<Entry>, cur: FS, p: Path)
    requires |entries| > 0 && Chain(cfg, paths, snaps, start, entries, cur) && LeftApart(entries)
    requires WF(cur) && Unblocked(paths, cur)
    requires p in paths && Dropped(entries[|entries| - 1], p)
    ensures RolledBack(start, entries, RollbackAll(snaps, cur, NewestFirst(entries)).fs, p)
  {
    DroppedIs(cfg, paths, snaps, start, entries, cur, p);
    DroppedStays(cfg, paths, snaps, start, entries, cur, p);
    NewestAlone(start, entries, RollbackAll(snaps, cur, NewestFirst(entries)).fs, p);
  }

  /** Where only the newest entry left something, or none did. */
  lemma NewestAlone(start: FS, entries: seq<Entry>, after: FS, p: Path)
    requires |entries| > 0 && AllClearOf(entries[..|entries| - 1], p) && p !in start
    requires LeftBy(entries[|entries| - 1], p) ==> SameAt(after, Post(entries[|entries| - 1]), p)
    requires !LeftBy(entries[|entries| - 1], p) ==> p !in after
    ensures RolledBack(start, entries, after, p)
  {
    forall j | 0 <= j < |entries| - 1 ensures !LeftBy(entries[j], p) {
      assert ClearOf(entries[..|entries| - 1][j].rows, p);
      ClearLeftNothing(entries[j], p);
    }
  }

  /** The rollback loop, whatever the commands left, as long as no older rows name it: no event
      fails, what was left stays, and every other watched path is back to the start. */
  lemma {:induction false} RollbackLeaves(cfg: Config, paths: set<Path>, snaps: Snaps, start: FS, entries: seq<Entry>, cur: FS)
    requires Chain(cfg, paths, snaps, start, entries, cur) && LeftApart(entries)
    requires WF(cur) && Unblocked(paths, cur)
    ensures var tally := RollbackAll(snaps, cur, NewestFirst(entries));
      && tally.failed == 0 && tally.restored == |entries|
      && forall p :: p in paths ==> RolledBack(start, entries, tally.fs, p)
    decreases |entries|
  {
    if |entries| == 0 {
      forall p | p in paths ensures SameAt(cur, start, p) { assert SameAt(start, cur, p); }
    } else {
      var init, last := entries[..|entries| - 1], entries[|entries| - 1];
      var undone := RestoreEvent(snaps, cur, last.rows).fs;
      OlderChain(cfg, paths, snaps, start, entries, cur);
      assert NewestFirst(entries)[1..] == NewestFirst(init);
      RollbackLeaves(cfg, Rest(paths, last), snaps, start, init, undone);
      var after := RollbackAll(snaps, undone, NewestFirst(init)).fs;
      forall p | p in paths ensures RolledBack(start, entries, after, p) {
        if Dropped(last, p) {
          DroppedRolledBack(cfg, paths, snaps, start, entries, cur, p);
        } else {
          RestRolledBack(start, entries, after, p);
        }
      }
    }
  }

  lemma RestRolledBack(start: FS, entries: seq<Entry>, after: FS, p: Path)
    requires |entries| > 0 && !Dropped(entries[|entries| - 1], p)
    requires RolledBack(start, entries[..|entries| - 1], after, p)
    ensures RolledBack(start, entries, after, p)
  {
    var init, last := entries[..|entries| - 1], entries[|entries| - 1];
    assert Covers(p, p);
    assert !LeftBy(last, p);
    assert forall j :: 0 <= j < |init| ==> init[j] == entries[j];
  }

  /** Rolling back to a checkpoint: for any sequence of covered commands since then, each run
      to any point, with anyone writing anywhere else, as long as nothing that a command left
      is at or above a path that an older one's rows name, the newest-first loop fails on no
      event. It brings every affected path back to its value at the checkpoint if and only if
      every entry is settled. */
  lemma RollbackExact(cfg: Config, paths: set<Path>, snaps: Snaps, start: FS, entries: seq<Entry>, cur: FS)
    requires Chain(cfg, paths, snaps, start, entries, cur) && LeftApart(entries)
    requires WF(cur) && Unblocked(paths, cur)
    ensures var tally := RollbackAll(snaps, cur, NewestFirst(entries));
      && tally.failed == 0 && tally.restored == |entries|
      && (SameOn(paths, tally.fs, start) <==> forall i :: 0 <= i < |entries| ==> EntrySettled(entries[i]))
  {
    RollbackLeaves(cfg, paths, snaps, start, entries, cur);
    ChainEntries(cfg, paths, snaps, start, entries, cur);
    var after := RollbackAll(snaps, cur, NewestFirst(entries)).fs;
    forall i | 0 <= i < |entries| ensures EntrySettled(entries[i]) <==> LeftNothing(entries[i]) {
      SettledIffLeftNothing(cfg, paths, snaps, entries[i]);
    }
    ExactIffNothingLeft(cfg, paths, snaps, start, entries, after);
  }

  lemma ExactIffNothingLeft(cfg: Config, paths: set<Path>, snaps: Snaps, start: FS, entries: seq<Entry>, after: FS)
    requires AllOk(cfg, paths, snaps, entries)
    requires forall p :: p in paths ==> RolledBack(start, entries, after, p)
    ensures SameOn(paths, after, start) <==> forall i :: 0 <= i < |entries| ==> LeftNothing(entries[i])
  {
    forall i, p | 0 <= i < |entries| && LeftBy(entries[i], p) ensures !SameOn(paths, after, start) {
      LeftIsFresh(cfg, paths, snaps, entries[i], p);
      assert RolledBack(start, entries, after, p);
    }
    if forall i :: 0 <= i < |entries| ==> LeftNothing(entries[i]) {
      forall p | p in paths ensures SameAt(after, start, p) { assert RolledBack(start, entries, after, p); }
    }
  }

  /** When all but the oldest are settled, nothing is in the way. */
  lemma SettledApart(cfg: Config, paths: set<Path>, snaps: Snaps, start: FS, entries: seq<Entry>, cur: FS)
    requires Chain(cfg, paths, snaps, start, entries, cur)
    requires forall i :: 0 < i < |entries| ==> EntrySettled(entries[i])
    ensures LeftApart(entries)
  {
    ChainEntries(cfg, paths, snaps, start, entries, cur);
    forall i | 0 < i < |entries| ensures LeftNothing(entries[i]) { SettledIffLeftNothing(cfg, paths, snaps, entries[i]); }
  }

  lemma ChainEnd(cfg: Config, paths: set<Path>, snaps: Snaps, start: FS, entries: seq<Entry>, end: FS, end': FS)
    requires Chain(cfg, paths, snaps, start, entries, end) && SameOn(paths, end', end)
    ensures Chain(cfg, paths, snaps, start, entries, end')
  {
    forall p | p in paths ensures SameAt(end', end, p) { }
  }

  // ---- what is left can meet an older event ----

  /** The conflict guard: a row of a removed or moved file that meets a file at its path fails,
      changing nothing, exactly when that file's bytes have another digest. A row of overwritten
      bytes puts them back over whatever is there. */
  lemma GuardIff(snaps: Snaps, fs: FS, r: Affected)
    requires WF(fs) && IsFile(fs, r.path) && r.path != []
    requires r.dir.Some? && SlotOf(r) in snaps && r.digest == Some(Sha256(snaps[SlotOf(r)]))
    ensures r.op == OpDelete || r.op == OpRename ==>
              (RestoreRow(snaps, fs, r).ok <==> fs[r.path] == File(snaps[SlotOf(r)]))
              && (!RestoreRow(snaps, fs, r).ok ==> RestoreRow(snaps, fs, r).fs == fs)
    ensures r.op == OpModify ==> RestoreRow(snaps, fs, r) == Outcome(fs[r.path := File(snaps[SlotOf(r)])], true)
  {
    assert Above(Parent(r.path), r.path);
  }

  /** No row can be restored below a file. */
  lemma BelowFileFails(snaps: Snaps, fs: FS, r: Affected, q: Path)
    requires WF(fs) && IsFile(fs, q) && Above(q, r.path)
    ensures !RestoreRow(snaps, fs, r).ok
  {
    AboveParent(q, r.path);
    MkdirAllIff(fs, r.path);
    MkdirAllIff(fs, Parent(r.path));
    assert Covers(q, r.path);
  }

  /** One removal's row, and a file at its path. */
  lemma RemovalMeetsFile(snaps: Snaps, fs: FS, p: Path, d: SnapDir, was: Bytes)
    requires WF(fs) && p != [] && IsFile(fs, p) && (d, Base(p)) in snaps && snaps[(d, Base(p))] == was
    ensures RestoreEvent(snaps, fs, [RemovedRow(p, d, was)]) == Outcome(fs, fs[p] == File(was))
  {
    var row := RemovedRow(p, d, was);
    var tail := [row][1..];
    assert tail == [] && Dirs(tail) == [] && Files(tail) == [];
    assert Plan([row]) == [row];
    assert Above(Parent(p), p);
    if fs[p] == File(was) { assert fs[p := File(was)] == fs; }
    assert RestoreRow(snaps, fs, row) == Outcome(fs, fs[p] == File(was));
    assert RestoreAll(snaps, fs, tail) == Outcome(fs, true);
  }

  lemma TwoEvents(snaps: Snaps, fs: FS, newer: seq<Affected>, older: seq<Affected>, ok: bool)
    requires RestoreEvent(snaps, fs, newer) == Outcome(fs, true) && RestoreEvent(snaps, fs, older) == Outcome(fs, ok)
    ensures RollbackAll(snaps, fs, [newer, older]) == if ok then Tally(fs, 2, 0) else Tally(fs, 1, 1)
  {
    assert [newer, older][1..] == [older] && [older][1..] == [];
    assert RollbackAll(snaps, fs, []) == Tally(fs, 0, 0);
    assert RollbackAll(snaps, fs, [older]) == if ok then Tally(fs, 1, 0) else Tally(fs, 0, 1);
  }

  /** The file at a is removed. */
  function Removal(fs: FS, snaps: Snaps, a: Path, d: SnapDir): Entry
    requires IsFile(fs, a)
  {
    Entry(Rm([a]), [RemovedRow(a, d, fs[a].bytes)], snaps, [fs, fs - {a}])
  }

  /** A move of z to the free path a stops after writing part. */
  function CutCopy(fs: FS, snaps: Snaps, z: Path, a: Path, d: SnapDir, part: Bytes): Entry
    requires IsFile(fs, z)
  {
    Entry(Mv([(z, a)]), [MovedRow(z, a, d, fs[z].bytes)], snaps, [fs, fs[a := File(part)]])
  }

  lemma RemovalOk(cfg: Config, fs: FS, snaps: Snaps, a: Path, z: Path, d: SnapDir)
    requires WF(fs) && SavedIn(cfg, fs, snaps, a, d) && a != []
    ensures EntryOk(cfg, {a, z}, snaps, Removal(fs, snaps, a, d)) && WF(fs - {a})
  {
    var row := RemovedRow(a, d, fs[a].bytes);
    RemovalRecorded(cfg, fs, snaps, a, d);
    RemoveKeepsWF(fs, a);
    assert a in [a] && Covers(a, a) && Remove(fs, a) == fs - {a};
    assert Step(fs, Rm([a]), fs, fs - {a});
    assert Run(Rm([a]), [fs, fs - {a}]);
    assert Footprint([row]) == {a};
  }

  lemma CutCopyOk(cfg: Config, fs: FS, snaps: Snaps, z: Path, a: Path, d: SnapDir, part: Bytes)
    requires WF(fs) && SavedIn(cfg, fs, snaps, z, d) && a !in fs && IsDir(fs, Parent(a)) && part != fs[z].bytes
    ensures EntryOk(cfg, {a, z}, snaps, CutCopy(fs, snaps, z, a, d, part))
    ensures WF(fs[a := File(part)]) && !EntrySettled(CutCopy(fs, snaps, z, a, d, part))
  {
    var row := MovedRow(z, a, d, fs[z].bytes);
    MoveRecorded(cfg, fs, snaps, z, a, d);
    CutCopyRuns(fs, z, a, part);
    WriteKeepsWF(fs, a, part);
    assert Footprint([row]) == {a, z};
    assert (z, a) in [(z, a)] && Resolved(fs, z, a) == a;
    assert !SettledAt(fs, [(z, a)], fs[a := File(part)], a);
  }

  lemma BothRecorded(cfg: Config, fs: FS, snaps: Snaps, a: Path, z: Path, d: SnapDir, e: SnapDir, part: Bytes)
    requires WF(fs) && a != z && a != [] && SavedIn(cfg, fs, snaps, a, d) && SavedIn(cfg, fs, snaps, z, e)
    requires part != fs[z].bytes
    ensures var entries := [Removal(fs, snaps, a, d), CutCopy(fs - {a}, snaps, z, a, e, part)];
      && Chain(cfg, {a, z}, snaps, fs, entries, fs[a := File(part)]) && WF(fs[a := File(part)])
      && EntrySettled(entries[0]) && !EntrySettled(entries[1])
  {
    var middle := fs - {a};
    assert Above(Parent(a), a) && Parent(a) in middle;
    RemovalOk(cfg, fs, snaps, a, z, d);
    CutCopyOk(cfg, middle, snaps, z, a, e, part);
    assert middle[a := File(part)] == fs[a := File(part)];
    TwoEntryChain(cfg, {a, z}, snaps, fs, Removal(fs, snaps, a, d), CutCopy(middle, snaps, z, a, e, part), fs[a := File(part)]);
  }

  /** Where an older row does name what is left, the guard decides: a file a is removed, and
      then a copy of z to a stops after writing part. Both commands are recorded and covered,
      and nobody else writes. The rollback fails on the removal, and leaves the disk as it is,
      unless the part happens to be just what was removed; then it restores everything. */
  lemma LeftoverMeetsOlder(cfg: Config, fs: FS, snaps: Snaps, a: Path, z: Path, d: SnapDir, e: SnapDir, part: Bytes)
    requires WF(fs) && a != z && a != [] && SavedIn(cfg, fs, snaps, a, d) && SavedIn(cfg, fs, snaps, z, e)
    requires part != fs[z].bytes
    ensures var end := fs[a := File(part)];
      var entries := [Removal(fs, snaps, a, d), CutCopy(fs - {a}, snaps, z, a, e, part)];
      var tally := RollbackAll(snaps, end, NewestFirst(entries));
      && Chain(cfg, {a, z}, snaps, fs, entries, end) && WF(end)
      && EntrySettled(entries[0]) && !EntrySettled(entries[1])
      && (tally.failed == 0 <==> part == fs[a].bytes)
      && tally.fs == end && (end == fs <==> part == fs[a].bytes)
  {
    BothRecorded(cfg, fs, snaps, a, z, d, e, part);
    BothUndone(cfg, fs, snaps, a, z, d, e, part);
    assert fs[a := File(part)][a] == File(part);
  }

  lemma BothUndone(cfg: Config, fs: FS, snaps: Snaps, a: Path, z: Path, d: SnapDir, e: SnapDir, part: Bytes)
    requires WF(fs) && a != z && a != [] && SavedIn(cfg, fs, snaps, a, d) && SavedIn(cfg, fs, snaps, z, e)
    requires part != fs[z].bytes && WF(fs[a := File(part)])
    ensures var end := fs[a := File(part)];
      var entries := [Removal(fs, snaps, a, d), CutCopy(fs - {a}, snaps, z, a, e, part)];
      RollbackAll(snaps, end, NewestFirst(entries)) == if part == fs[a].bytes then Tally(end, 2, 0) else Tally(end, 1, 1)
  {
    var middle, end := fs - {a}, fs[a := File(part)];
    var older, newer := Removal(fs, snaps, a, d), CutCopy(middle, snaps, z, a, e, part);
    assert Above(Parent(a), a) && Parent(a) in middle;
    RemoveKeepsWF(fs, a);
    assert middle == Remove(fs, a) && middle[a := File(part)] == end;
    PartialCopyStays(cfg, middle, snaps, z, a, e, part);
    RemovalMeetsFile(snaps, end, a, d, fs[a].bytes);
    NewestFirstOfTwo(older, newer);
    TwoEvents(snaps, end, newer.rows, older.rows, part == fs[a].bytes);
  }

  lemma NewestFirstOfTwo(older: Entry, newer: Entry)
    ensures NewestFirst([older, newer]) == [newer.rows, older.rows]
  {
    assert [older, newer][..1] == [older] && [older][..0] == [];
    assert NewestFirst([older]) == [older.rows];
  }

  lemma TwoEntryChain(cfg: Config, paths: set<Path>, snaps: Snaps, start: FS, older: Entry, newer: Entry, end: FS)
    requires EntryOk(cfg, paths, snaps, older) && EntryOk(cfg, paths, snaps, newer)
    requires Pre(older) == start && Post(older) == Pre(newer) && Post(newer) == end
    ensures Chain(cfg, paths, snaps, start, [older, newer], end)
  {
    assert [older, newer][..1] == [older] && [older][..0] == [];
    assert Chain(cfg, paths, snaps, start, [], start);
    assert Chain(cfg, paths, snaps, start, [older], Pre(newer));
  }
}
