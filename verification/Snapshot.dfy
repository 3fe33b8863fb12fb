/** The Snapshotter: what is saved before a destructive command, and how one saved row
    is put back. */
module Snapshot {
  import opened Wrappers
  import opened Sequences
  import opened FileSystem

  /** SHA-256, taken to be collision-free: a digest determines its bytes. */
  datatype Digest = Sha256(of: Bytes)

  datatype Op = OpDelete | OpSkipped | OpAbsent | OpRename | OpModify

  datatype SkipReason = NoReason | ReasonOversize | ReasonIgnored | StatFailed

  /** Names of snapshot directories, in the order makeSnapshotDir hands them out. */
  type SnapDir = nat

  /** A snapshot directory holds one file, named after the base of the saved path. */
  type Slot = (SnapDir, Name)

  type Snaps = map<Slot, Bytes>

  datatype Affected = Affected(
    path: Path,
    op: Op,
    dir: Option<SnapDir>,
    skip: SkipReason,
    digest: Option<Digest>,
    target: Option<Path>)

  datatype Config = Config(maxBytes: nat, ignored: Path -> bool)

  function SlotOf(r: Affected): Slot
    requires r.dir.Some?
  {
    (r.dir.value, Base(r.path))
  }

  function DirOf(r: Affected): SnapDir {
    if r.dir.Some? then r.dir.value else 0
  }

  function Bare(path: Path, op: Op, skip: SkipReason): Affected {
    Affected(path, op, None, skip, None, None)
  }

  /** The row Snapshot returns for a path, when a copy goes to directory dir. */
  function SnapshotRow(cfg: Config, fs: FS, path: Path, dir: SnapDir): Affected {
    if cfg.ignored(path) then Bare(path, OpSkipped, ReasonIgnored)
    else match Stat(fs, path)
      case NotExist => Bare(path, OpAbsent, NoReason)
      case StatError => Bare(path, OpSkipped, StatFailed)
      case Found(Dir) => Bare(path, OpDelete, NoReason)
      case Found(File(bytes)) =>
        if |bytes| > cfg.maxBytes then Bare(path, OpSkipped, ReasonOversize)
        else Affected(path, OpDelete, Some(dir), NoReason, Some(Sha256(bytes)), None)
  }

  /** A row with a snapshot directory has its own bytes in the store under a digest that matches. */
  ghost predicate Saved(fs: FS, snaps: Snaps, r: Affected) {
    r.dir.Some? ==>
      && IsFile(fs, r.path)
      && r.digest == Some(Sha256(fs[r.path].bytes))
      && SlotOf(r) in snaps
      && snaps[SlotOf(r)] == fs[r.path].bytes
  }

  /** r is what Snapshot says about its path. */
  ghost predicate PlainRow(cfg: Config, fs: FS, snaps: Snaps, r: Affected) {
    && r == SnapshotRow(cfg, fs, r.path, DirOf(r))
    && Saved(fs, snaps, r)
  }

  /** r is what SnapshotMany says about its path: a directory is marked whether or not it
      is ignored, and any failing stat of a target counts as absence. */
  ghost predicate TreeRow(cfg: Config, fs: FS, snaps: Snaps, r: Affected) {
    if IsDir(fs, r.path) then r == Bare(r.path, OpDelete, NoReason)
    else if r.path in fs then PlainRow(cfg, fs, snaps, r)
    else r == Bare(r.path, OpAbsent, NoReason)
  }

  /** Where mv really puts src: inside dst when dst is a directory. */
  function Resolved(fs: FS, src: Path, dst: Path): Path {
    if IsDir(fs, dst) then dst + [Base(src)] else dst
  }

  /** The first row SnapshotMove records, for the source. */
  function MoveSourceRow(cfg: Config, fs: FS, src: Path, target: Path, dir: SnapDir): Affected {
    match Stat(fs, src)
    case NotExist => Bare(src, OpAbsent, NoReason).(target := Some(target))
    case StatError => Bare(src, OpSkipped, StatFailed).(target := Some(target))
    case Found(Dir) => Bare(src, OpRename, NoReason).(target := Some(target))
    case Found(File(_)) =>
      var r := SnapshotRow(cfg, fs, src, dir);
      (if r.op == OpDelete then r.(op := OpRename) else r).(target := Some(target))
  }

  /** The row for the bytes a mv overwrites. */
  function OverwriteRow(cfg: Config, fs: FS, target: Path, dir: SnapDir): Affected {
    var r := SnapshotRow(cfg, fs, target, dir);
    if r.op == OpDelete then r.(op := OpModify) else r
  }

  /** What SnapshotMove records for the source: one row, and for a directory one more for
      each path below it. */
  ghost predicate SourceRows(cfg: Config, fs: FS, snaps: Snaps, src: Path, target: Path, rows: seq<Affected>) {
    && rows != []
    && rows[0] == MoveSourceRow(cfg, fs, src, target, DirOf(rows[0]))
    && Saved(fs, snaps, rows[0])
    && (forall r :: r in rows[1..] ==> TreeRow(cfg, fs, snaps, r))
    && (forall p :: p in PathsOf(rows[1..]) <==> IsDir(fs, src) && p in fs && Above(src, p))
  }

  /** What it records for a target that is about to be overwritten. */
  ghost predicate OverwriteRows(cfg: Config, fs: FS, snaps: Snaps, target: Path, rows: seq<Affected>) {
    if IsFile(fs, target) then
      && |rows| == 1
      && rows[0] == OverwriteRow(cfg, fs, target, DirOf(rows[0]))
      && Saved(fs, snaps, rows[0])
    else rows == []
  }

  /** rows is what SnapshotMove records for one (src, dst) pair. */
  ghost predicate MoveRows(cfg: Config, fs: FS, snaps: Snaps, src: Path, dst: Path, rows: seq<Affected>) {
    var target := Resolved(fs, src, dst);
    var n := |rows| - if IsFile(fs, target) then 1 else 0;
    && 0 <= n
    && SourceRows(cfg, fs, snaps, src, target, rows[..n])
    && OverwriteRows(cfg, fs, snaps, target, rows[n..])
  }

  /** The first row names the source and where it goes: into the destination, if that is a
      directory, under the last name of the source. */
  lemma MoveTarget(cfg: Config, fs: FS, snaps: Snaps, src: Path, dst: Path, rows: seq<Affected>)
    requires MoveRows(cfg, fs, snaps, src, dst, rows)
    ensures rows != [] && rows[0].path == src
    ensures rows[0].target == Some(if IsDir(fs, dst) then dst + [if src == [] then "/" else src[|src| - 1]] else dst)
  {
    var n := |rows| - if IsFile(fs, Resolved(fs, src, dst)) then 1 else 0;
    assert rows[..n][0] == rows[0];
  }

  /** The store only ever grows. */
  ghost predicate Extends(a: Snaps, b: Snaps) {
    forall s :: s in a ==> s in b && b[s] == a[s]
  }

  /** A target and, when it is a directory, everything below it. */
  ghost function TreeOf(fs: FS, p: Path): set<Path> {
    {p} + if IsDir(fs, p) then set q | q in fs && Above(p, q) else {}
  }

  function PathsOf(rows: seq<Affected>): set<Path> {
    set r | r in rows :: r.path
  }

  /** No path has two rows: what the (event_id, path) primary key demands. */
  predicate Distinct(rows: seq<Affected>) {
    forall i, j :: 0 <= i < j < |rows| ==> rows[i].path != rows[j].path
  }

  /** rows is what SnapshotMany records for one target. */
  ghost predicate TreeRows(cfg: Config, fs: FS, snaps: Snaps, p: Path, rows: seq<Affected>) {
    && (forall r :: r in rows ==> TreeRow(cfg, fs, snaps, r))
    && PathsOf(rows) == TreeOf(fs, p)
    && Distinct(rows)
  }

  /** rows is what SnapshotMany records: the rows of each target, in order. */
  ghost predicate ManyRows(cfg: Config, fs: FS, snaps: Snaps, paths: seq<Path>, rows: seq<Affected>)
    decreases |paths|
  {
    if |paths| == 0 then |rows| == 0
    else
      var last := |paths| - 1;
      exists n :: 0 <= n <= |rows|
        && ManyRows(cfg, fs, snaps, paths[..last], rows[..n])
        && TreeRows(cfg, fs, snaps, paths[last], rows[n..])
  }

  lemma TreeRowsGrow(cfg: Config, fs: FS, snaps: Snaps, more: Snaps, p: Path, rows: seq<Affected>)
    requires TreeRows(cfg, fs, snaps, p, rows) && Extends(snaps, more)
    ensures TreeRows(cfg, fs, more, p, rows)
  {
  }

  lemma {:induction false} ManyRowsGrow(cfg: Config, fs: FS, snaps: Snaps, more: Snaps, paths: seq<Path>, rows: seq<Affected>)
    requires ManyRows(cfg, fs, snaps, paths, rows) && Extends(snaps, more)
    ensures ManyRows(cfg, fs, more, paths, rows)
    decreases |paths|
  {
    if |paths| > 0 {
      var last := |paths| - 1;
      var n :| 0 <= n <= |rows|
        && ManyRows(cfg, fs, snaps, paths[..last], rows[..n])
        && TreeRows(cfg, fs, snaps, paths[last], rows[n..]);
      ManyRowsGrow(cfg, fs, snaps, more, paths[..last], rows[..n]);
      TreeRowsGrow(cfg, fs, snaps, more, paths[last], rows[n..]);
    }
  }

  lemma LastTree(cfg: Config, fs: FS, snaps: Snaps, paths: seq<Path>, rows: seq<Affected>) returns (n: nat)
    requires |paths| > 0 && ManyRows(cfg, fs, snaps, paths, rows)
    ensures n <= |rows| && ManyRows(cfg, fs, snaps, paths[..|paths| - 1], rows[..n])
    ensures TreeRows(cfg, fs, snaps, paths[|paths| - 1], rows[n..])
  {
    var last := |paths| - 1;
    n :| 0 <= n <= |rows|
      && ManyRows(cfg, fs, snaps, paths[..last], rows[..n])
      && TreeRows(cfg, fs, snaps, paths[last], rows[n..]);
  }

  /** The targets and everything below those that are directories. */
  ghost function TreesOf(fs: FS, paths: seq<Path>): set<Path> {
    if |paths| == 0 then {} else TreesOf(fs, paths[..|paths| - 1]) + TreeOf(fs, paths[|paths| - 1])
  }

  lemma {:induction false} InTrees(fs: FS, paths: seq<Path>, k: nat)
    requires k < |paths|
    ensures TreeOf(fs, paths[k]) <= TreesOf(fs, paths)
  {
    if k < |paths| - 1 { InTrees(fs, paths[..|paths| - 1], k); }
  }

  lemma {:induction false} TreesMembers(fs: FS, paths: seq<Path>, q: Path)
    ensures q in TreesOf(fs, paths) <==> exists k :: 0 <= k < |paths| && q in TreeOf(fs, paths[k])
  {
    if |paths| > 0 {
      var init := paths[..|paths| - 1];
      TreesMembers(fs, init, q);
      assert forall k :: 0 <= k < |init| ==> init[k] == paths[k];
    }
  }

  lemma PathsJoin(a: seq<Affected>, b: seq<Affected>)
    ensures PathsOf(a + b) == PathsOf(a) + PathsOf(b)
  {
    assert forall r :: r in a + b <==> r in a || r in b;
  }

  /** The paths recorded for some targets are those of their trees. */
  lemma {:induction false} ManyPaths(cfg: Config, fs: FS, snaps: Snaps, paths: seq<Path>, rows: seq<Affected>)
    requires ManyRows(cfg, fs, snaps, paths, rows)
    ensures forall r :: r in rows ==> TreeRow(cfg, fs, snaps, r)
    ensures PathsOf(rows) == TreesOf(fs, paths)
    decreases |paths|
  {
    if |paths| > 0 {
      var n := LastTree(cfg, fs, snaps, paths, rows);
      ManyPaths(cfg, fs, snaps, paths[..|paths| - 1], rows[..n]);
      CutAt(rows, n);
      PathsJoin(rows[..n], rows[n..]);
    }
  }

  lemma DistinctJoin(a: seq<Affected>, b: seq<Affected>)
    ensures Distinct(a + b) <==> Distinct(a) && Distinct(b) && PathsOf(a) !! PathsOf(b)
  {
    var all := a + b;
    if Distinct(all) {
      forall i, j | 0 <= i < j < |a| ensures a[i].path != a[j].path { assert all[i] == a[i] && all[j] == a[j]; }
      forall i, j | 0 <= i < j < |b| ensures b[i].path != b[j].path { assert all[|a| + i] == b[i] && all[|a| + j] == b[j]; }
      forall x, y | x in a && y in b ensures x.path != y.path {
        var i, j :| 0 <= i < |a| && 0 <= j < |b| && a[i] == x && b[j] == y;
        assert all[i] == x && all[|a| + j] == y;
      }
    }
    if Distinct(a) && Distinct(b) && PathsOf(a) !! PathsOf(b) {
      forall i, j | 0 <= i < j < |all| ensures all[i].path != all[j].path {
        if i < |a| <= j {
          assert a[i] in a && b[j - |a|] in b;
          assert a[i].path in PathsOf(a) && b[j - |a|].path in PathsOf(b);
        }
      }
    }
  }

  ghost predicate TreesApart(fs: FS, paths: seq<Path>) {
    forall i, j :: 0 <= i < j < |paths| ==> TreeOf(fs, paths[i]) !! TreeOf(fs, paths[j])
  }

  /** An event for several targets has distinct paths, and so can be recorded at all, exactly
      when no target is named twice or lies below another. */
  lemma {:induction false} RecordableIff(cfg: Config, fs: FS, snaps: Snaps, paths: seq<Path>, rows: seq<Affected>)
    requires ManyRows(cfg, fs, snaps, paths, rows)
    ensures Distinct(rows) <==> TreesApart(fs, paths)
    decreases |paths|
  {
    if |paths| > 0 {
      var n := LastTree(cfg, fs, snaps, paths, rows);
      RecordableIff(cfg, fs, snaps, paths[..|paths| - 1], rows[..n]);
      ManyPaths(cfg, fs, snaps, paths[..|paths| - 1], rows[..n]);
      CutAt(rows, n);
      DistinctJoin(rows[..n], rows[n..]);
      LastApart(fs, paths);
    }
  }

  lemma LastApart(fs: FS, paths: seq<Path>)
    requires |paths| > 0
    ensures var init := paths[..|paths| - 1];
      TreesApart(fs, paths) <==> TreesApart(fs, init) && TreesOf(fs, init) !! TreeOf(fs, paths[|paths| - 1])
  {
    var last := |paths| - 1;
    var init := paths[..last];
    forall k | 0 <= k < last ensures TreeOf(fs, paths[k]) <= TreesOf(fs, init) { InTrees(fs, init, k); }
    if TreesApart(fs, paths) {
      AllApart(fs, init, paths[last]);
      forall i, j | 0 <= i < j < last ensures TreeOf(fs, init[i]) !! TreeOf(fs, init[j]) {
        assert TreeOf(fs, paths[i]) !! TreeOf(fs, paths[j]);
      }
    }
    if TreesApart(fs, init) && TreesOf(fs, init) !! TreeOf(fs, paths[last]) {
      forall i, j | 0 <= i < j < |paths| ensures TreeOf(fs, paths[i]) !! TreeOf(fs, paths[j]) {
        if j < last { assert TreeOf(fs, init[i]) !! TreeOf(fs, init[j]); }
      }
    }
  }

  lemma {:induction false} AllApart(fs: FS, paths: seq<Path>, p: Path)
    requires forall k :: 0 <= k < |paths| ==> TreeOf(fs, paths[k]) !! TreeOf(fs, p)
    ensures TreesOf(fs, paths) !! TreeOf(fs, p)
  {
    if |paths| > 0 { AllApart(fs, paths[..|paths| - 1], p); }
  }

  // ---- putting one row back ----

  /** restoreFileImpl: check the snapshot, check for a conflict unless forced, make the
      parent, copy the bytes back. */
  function RestoreFile(snaps: Snaps, fs: FS, r: Affected, force: bool): Outcome {
    if r.dir.None? then Outcome(fs, false)
    else
      var slot := SlotOf(r);
      if r.digest.Some? && (slot !in snaps || Sha256(snaps[slot]) != r.digest.value) then Outcome(fs, false)
      else if !force && IsFile(fs, r.path) && Some(Sha256(fs[r.path].bytes)) != r.digest then Outcome(fs, false)
      else
        var made := MkdirAll(fs, Parent(r.path));
        if !made.ok || slot !in snaps || IsDir(made.fs, r.path) then Outcome(made.fs, false)
        else Outcome(made.fs[r.path := File(snaps[slot])], true)
  }

  /** The tidy step of restoreRename: drop the target while it still holds the moved bytes. */
  function DropMoved(fs: FS, r: Affected): FS {
    if r.target.Some? && r.digest.Some? && IsFile(fs, r.target.value)
       && Sha256(fs[r.target.value].bytes) == r.digest.value
    then Remove(fs, r.target.value)
    else fs
  }

  function RestoreRename(snaps: Snaps, fs: FS, r: Affected): Outcome {
    if r.dir.None? then
      var made := MkdirAll(fs, r.path);
      if made.ok && r.target.Some? then Outcome(Remove(made.fs, r.target.value), true) else made
    else
      var put := RestoreFile(snaps, fs, r, false);
      if put.ok then Outcome(DropMoved(put.fs, r), true) else put
  }

  /** Restore. */
  function RestoreRow(snaps: Snaps, fs: FS, r: Affected): Outcome {
    match r.op
    case OpRename => RestoreRename(snaps, fs, r)
    case OpModify => RestoreFile(snaps, fs, r, true)
    case OpDelete => if r.dir.None? then MkdirAll(fs, r.path) else RestoreFile(snaps, fs, r, false)
    case _ => Outcome(fs, false)
  }

  function RestoreAll(snaps: Snaps, fs: FS, rows: seq<Affected>): Outcome
    decreases |rows|
  {
    if rows == [] then Outcome(fs, true)
    else
      var first := RestoreRow(snaps, fs, rows[0]);
      var rest := RestoreAll(snaps, first.fs, rows[1..]);
      Outcome(rest.fs, first.ok && rest.ok)
  }

  /** A regular file that is not ignored and within the limit is copied; nothing else is. */
  predicate Copies(cfg: Config, fs: FS, path: Path) {
    IsFile(fs, path) && !cfg.ignored(path) && |fs[path].bytes| <= cfg.maxBytes
  }

  /** The row of a path that is not copied says why. */
  predicate NotCopied(cfg: Config, fs: FS, path: Path, rec: Affected) {
    if cfg.ignored(path) then rec.op == OpSkipped && rec.skip == ReasonIgnored
    else if IsFile(fs, path) then rec.op == OpSkipped && rec.skip == ReasonOversize
    else if IsDir(fs, path) then rec.op == OpDelete
    else rec.op == if ThroughFile(fs, path) then OpSkipped else OpAbsent
  }

  // ---- rows that cannot be restored ----

  /** A snapshot that is gone or has other bytes than its digest says restores nothing. */
  lemma RottedFails(snaps: Snaps, fs: FS, r: Affected)
    requires r.dir.Some? && r.digest.Some?
    requires SlotOf(r) !in snaps || snaps[SlotOf(r)] != r.digest.value.of
    ensures RestoreRow(snaps, fs, r) == Outcome(fs, false)
  {
  }

  /** Neither does a skipped or absent row, or one of overwritten bytes without a copy. */
  lemma NothingToRestoreFails(snaps: Snaps, fs: FS, r: Affected)
    requires r.op == OpSkipped || r.op == OpAbsent || (r.op == OpModify && r.dir.None?)
    ensures RestoreRow(snaps, fs, r) == Outcome(fs, false)
  {
  }

  /** The first row that fails makes the whole restore fail, and the others are still tried. */
  lemma {:induction false} OkIffAll(snaps: Snaps, fs: FS, a: seq<Affected>, r: Affected, b: seq<Affected>)
    ensures var before := RestoreAll(snaps, fs, a); var one := RestoreRow(snaps, before.fs, r);
      var after := RestoreAll(snaps, one.fs, b);
      RestoreAll(snaps, fs, a + [r] + b) == Outcome(after.fs, before.ok && one.ok && after.ok)
    decreases |a|
  {
    var all := a + [r] + b;
    if |a| == 0 {
      assert all[0] == r && all[1..] == b;
    } else {
      assert all[0] == a[0] && all[1..] == a[1..] + [r] + b;
      OkIffAll(snaps, RestoreRow(snaps, fs, a[0]).fs, a[1..], r, b);
    }
  }

  // ---- the disk and the snapshotter ----

  /** The file system together with the snapshot root, which no command touches. */
  class Disk {
    var fs: FS
    var snaps: Snaps
    var nextDir: SnapDir

    ghost predicate Valid()
      reads this
    {
      WF(fs) && forall slot :: slot in snaps ==> slot.0 < nextDir
    }

    constructor (fs: FS)
      requires WF(fs)
      ensures Valid() && this.fs == fs && snaps == map[] && nextDir == 0
    {
      this.fs, snaps, nextDir := fs, map[], 0;
    }

    /** filepath.WalkDir below p, the root left out. The order is left open. */
    method Walk(p: Path) returns (order: seq<Path>)
      ensures forall q :: q in order <==> q in fs && Above(p, q)
      ensures forall i, j :: 0 <= i < j < |order| ==> order[i] != order[j]
    {
      order := [];
      var todo := set q | q in fs && Above(p, q);
      while todo != {}
        invariant forall q :: q in order || q in todo <==> q in fs && Above(p, q)
        invariant forall q :: q in order ==> q !in todo
        invariant forall i, j :: 0 <= i < j < |order| ==> order[i] != order[j]
        decreases todo
      {
        var q :| q in todo;
        order := order + [q];
        todo := todo - {q};
      }
    }
  }

  class Snapshotter {
    const disk: Disk
    const cfg: Config

    constructor (disk: Disk, cfg: Config)
      ensures this.disk == disk && this.cfg == cfg
    {
      this.disk, this.cfg := disk, cfg;
    }

    method Snapshot(path: Path) returns (rec: Affected)
      requires disk.Valid()
      modifies disk`snaps, disk`nextDir
      ensures disk.Valid()
      ensures Extends(old(disk.snaps), disk.snaps)
      ensures rec.path == path && PlainRow(cfg, disk.fs, disk.snaps, rec)
      ensures rec.dir.Some? ==> rec.dir == Some(old(disk.nextDir))
      ensures Copies(cfg, disk.fs, path) ==>
                rec.dir.Some? && disk.snaps == old(disk.snaps)[SlotOf(rec) := disk.fs[path].bytes]
      ensures !Copies(cfg, disk.fs, path) ==> rec.dir.None? && disk.snaps == old(disk.snaps)
      ensures !Copies(cfg, disk.fs, path) ==> NotCopied(cfg, disk.fs, path, rec)
    {
      if cfg.ignored(path) {
        return Bare(path, OpSkipped, ReasonIgnored);
      }
      match Stat(disk.fs, path) {
        case NotExist => return Bare(path, OpAbsent, NoReason);
        case StatError => return Bare(path, OpSkipped, StatFailed);
        case Found(Dir) => return Bare(path, OpDelete, NoReason);
        case Found(File(bytes)) =>
          if |bytes| > cfg.maxBytes {
            return Bare(path, OpSkipped, ReasonOversize);
          }
          var dir := disk.nextDir;
          disk.nextDir := dir + 1;
          disk.snaps := disk.snaps[(dir, Base(path)) := bytes];
          rec := Affected(path, OpDelete, Some(dir), NoReason, Some(Sha256(bytes)), None);
      }
    }

    /** Appends the rows of everything below a directory, in walk order. */
    method SnapshotBelow(p: Path) returns (out: seq<Affected>)
      requires disk.Valid()
      modifies disk`snaps, disk`nextDir
      ensures disk.Valid()
      ensures Extends(old(disk.snaps), disk.snaps)
      ensures forall r :: r in out ==> TreeRow(cfg, disk.fs, disk.snaps, r)
      ensures forall q :: q in PathsOf(out) <==> q in disk.fs && Above(p, q)
      ensures Distinct(out)
    {
      out := [];
      var order := disk.Walk(p);
      for i := 0 to |order|
        invariant disk.Valid()
        invariant Extends(old(disk.snaps), disk.snaps)
        invariant |out| == i
        invariant forall k :: 0 <= k < i ==> out[k].path == order[k] && TreeRow(cfg, disk.fs, disk.snaps, out[k])
      {
        if IsDir(disk.fs, order[i]) {
          out := out + [Bare(order[i], OpDelete, NoReason)];
        } else {
          var rec := Snapshot(order[i]);
          out := out + [rec];
        }
      }
      forall q ensures q in PathsOf(out) <==> q in order {
        if q in order {
          var k :| 0 <= k < |order| && order[k] == q;
          assert out[k] in out;
        }
      }
    }

    /** One turn of the loop of SnapshotMany. */
    method SnapshotTree(p: Path) returns (out: seq<Affected>)
      requires disk.Valid()
      modifies disk`snaps, disk`nextDir
      ensures disk.Valid()
      ensures Extends(old(disk.snaps), disk.snaps)
      ensures TreeRows(cfg, disk.fs, disk.snaps, p, out)
    {
      if p !in disk.fs {
        out := [Bare(p, OpAbsent, NoReason)];
        assert out[0].path == p;
      } else if !IsDir(disk.fs, p) {
        var rec := Snapshot(p);
        out := [rec];
        assert out[0].path == p;
      } else {
        var below := SnapshotBelow(p);
        var mark := Bare(p, OpDelete, NoReason);
        out := [mark] + below;
        assert forall r :: r in out <==> r == mark || r in below;
        assert PathsOf(out) == {p} + PathsOf(below);
        forall k | 0 <= k < |below| ensures below[k].path != p {
          assert below[k] in below && below[k].path in PathsOf(below);
        }
      }
    }

    method SnapshotMany(paths: seq<Path>) returns (out: seq<Affected>)
      requires disk.Valid()
      modifies disk`snaps, disk`nextDir
      ensures disk.Valid()
      ensures Extends(old(disk.snaps), disk.snaps)
      ensures ManyRows(cfg, disk.fs, disk.snaps, paths, out)
    {
      out := [];
      for i := 0 to |paths|
        invariant disk.Valid()
        invariant Extends(old(disk.snaps), disk.snaps)
        invariant ManyRows(cfg, disk.fs, disk.snaps, paths[..i], out)
      {
        ghost var before, snaps := out, disk.snaps;
        var rows := SnapshotTree(paths[i]);
        out := out + rows;
        ManyRowsGrow(cfg, disk.fs, snaps, disk.snaps, paths[..i], before);
        assert paths[..i + 1][..i] == paths[..i];
        assert out[..|before|] == before && out[|before|..] == rows;
      }
      assert paths[..|paths|] == paths;
    }

    /** The source half of SnapshotMove. */
    method SnapshotSource(src: Path, target: Path) returns (out: seq<Affected>)
      requires disk.Valid()
      modifies disk`snaps, disk`nextDir
      ensures disk.Valid()
      ensures Extends(old(disk.snaps), disk.snaps)
      ensures SourceRows(cfg, disk.fs, disk.snaps, src, target, out)
    {
      var mark := Bare(src, OpAbsent, NoReason).(target := Some(target));
      match Stat(disk.fs, src) {
        case NotExist => out := [mark];
        case StatError => out := [mark.(op := OpSkipped, skip := StatFailed)];
        case Found(Dir) =>
          var below := SnapshotBelow(src);
          out := [mark.(op := OpRename)] + below;
          assert out[1..] == below;
        case Found(File(_)) =>
          var rec := Snapshot(src);
          if rec.op == OpDelete {
            rec := rec.(op := OpRename);
          }
          out := [rec.(target := Some(target))];
      }
    }

    method SnapshotMove(src: Path, dst: Path) returns (out: seq<Affected>)
      requires disk.Valid()
      modifies disk`snaps, disk`nextDir
      ensures disk.Valid()
      ensures Extends(old(disk.snaps), disk.snaps)
      ensures MoveRows(cfg, disk.fs, disk.snaps, src, dst, out)
      ensures out != [] && out[0].path == src
      ensures out[0].target == Some(if IsDir(disk.fs, dst) then dst + [if src == [] then "/" else src[|src| - 1]] else dst)
    {
      var target := dst;
      if IsDir(disk.fs, dst) {
        target := dst + [Base(src)];
      }
      var rows := SnapshotSource(src, target);
      out := rows;
      assert out[..|rows|] == rows;
      if IsFile(disk.fs, target) {
        var rec := Snapshot(target);
        if rec.op == OpDelete {
          rec := rec.(op := OpModify);
        }
        out := out + [rec];
        assert out[..|rows|] == rows && out[|rows|..] == [rec];
      }
      MoveTarget(cfg, disk.fs, disk.snaps, src, dst, out);
    }

    /** Restore, step by step on the disk. */
    method Restore(rec: Affected) returns (ok: bool)
      modifies disk`fs
      ensures RestoreRow(disk.snaps, old(disk.fs), rec) == Outcome(disk.fs, ok)
    {
      match rec.op {
        case OpRename => ok := RestoreRenamed(rec);
        case OpModify => ok := RestoreBytes(rec, true);
        case OpDelete =>
          if rec.dir.None? {
            ok := MakeDirs(rec.path);
          } else {
            ok := RestoreBytes(rec, false);
          }
        case _ => ok := false;
      }
    }

    method MakeDirs(p: Path) returns (ok: bool)
      modifies disk`fs
      ensures MkdirAll(old(disk.fs), p) == Outcome(disk.fs, ok)
    {
      var made := MkdirAll(disk.fs, p);
      disk.fs, ok := made.fs, made.ok;
    }

    method RestoreBytes(rec: Affected, force: bool) returns (ok: bool)
      modifies disk`fs
      ensures RestoreFile(disk.snaps, old(disk.fs), rec, force) == Outcome(disk.fs, ok)
    {
      if rec.dir.None? {
        return false;
      }
      var src := SlotOf(rec);
      if rec.digest.Some? {
        if src !in disk.snaps || Sha256(disk.snaps[src]) != rec.digest.value {
          return false;
        }
      }
      if !force && IsFile(disk.fs, rec.path) && Some(Sha256(disk.fs[rec.path].bytes)) != rec.digest {
        return false;
      }
      ok := MakeDirs(Parent(rec.path));
      if !ok || src !in disk.snaps || IsDir(disk.fs, rec.path) {
        return false;
      }
      disk.fs := disk.fs[rec.path := File(disk.snaps[src])];
    }

    method RestoreRenamed(rec: Affected) returns (ok: bool)
      modifies disk`fs
      ensures RestoreRename(disk.snaps, old(disk.fs), rec) == Outcome(disk.fs, ok)
    {
      if rec.dir.None? {
        ok := MakeDirs(rec.path);
        if ok && rec.target.Some? {
          disk.fs := Remove(disk.fs, rec.target.value);
        }
        return;
      }
      ok := RestoreBytes(rec, false);
      if ok {
        disk.fs := DropMoved(disk.fs, rec);
      }
    }
  }
}
