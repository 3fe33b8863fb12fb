/** What a restore can never do to data that is live when it starts, and the one kind of
    move it does not reverse. */
module RestoreSafety {
  import opened Wrappers
  import opened FileSystem
  import opened Snapshot
  import opened Undo
  import opened Commands

  /** Some file no OpModify row names holds these bytes. */
  ghost predicate Held(fs: FS, rows: seq<Affected>, bytes: Bytes) {
    exists p :: p in fs && fs[p] == File(bytes) && !Overwrites(rows, p)
  }

  ghost predicate Overwrites(rows: seq<Affected>, p: Path) {
    exists r :: r in rows && r.op == OpModify && r.path == p
  }

  /** No file is renamed onto itself. */
  ghost predicate NoSelfMove(rows: seq<Affected>) {
    forall r :: r in rows && r.op == OpRename && r.dir.Some? ==> r.target != Some(r.path)
  }

  /** The marker of a directory rename, whose target is removed without a digest check. */
  predicate IsMoveMark(r: Affected) {
    r.op == OpRename && r.dir.None? && r.target.Some?
  }

  /** Removing the marker's target costs no live file: there is none, or its old bytes are a
      row's business, or it stands in the way of the marker's own directory. */
  ghost predicate Spared(fs: FS, rows: seq<Affected>, r: Affected) {
    IsMoveMark(r) ==>
      !IsFile(fs, r.target.value) || Overwrites(rows, r.target.value) || (WF(fs) && Covers(r.target.value, r.path))
  }

  ghost predicate AllSpared(fs: FS, rows: seq<Affected>, todo: seq<Affected>) {
    forall r :: r in todo ==> Spared(fs, rows, r)
  }

  // ---- the directory rows ----

  /** after has the files of fs that no OpModify row names, and no others. */
  ghost predicate KeepsFiles(fs: FS, rows: seq<Affected>, after: FS) {
    && (forall p :: IsFile(fs, p) && !Overwrites(rows, p) ==> p in after && after[p] == fs[p])
    && (forall p :: IsFile(after, p) ==> IsFile(fs, p))
    && (WF(fs) ==> WF(after))
  }

  lemma MkdirAllKeepsWF(fs: FS, p: Path)
    requires WF(fs)
    ensures WF(MkdirAll(fs, p).fs)
  {
    MkdirAllKeeps(fs, p);
    if MkdirAll(fs, p).ok {
      MkdirAllIff(fs, p);
      MkdirAllMakes(fs, p);
    }
  }

  lemma MkdirAllKeepsFiles(fs: FS, rows: seq<Affected>, p: Path)
    ensures KeepsFiles(fs, rows, MkdirAll(fs, p).fs)
  {
    MkdirAllKeeps(fs, p);
    if WF(fs) { MkdirAllKeepsWF(fs, p); }
  }

  /** Restoring a directory row keeps the files, when its marker's target is spared. */
  lemma DirRowKeepsFiles(snaps: Snaps, fs: FS, rows: seq<Affected>, r: Affected)
    requires r in rows && IsDirRow(r) && Spared(fs, rows, r)
    ensures KeepsFiles(fs, rows, RestoreRow(snaps, fs, r).fs)
  {
    MkdirAllKeepsFiles(fs, rows, r.path);
    var made := MkdirAll(fs, r.path);
    if IsMoveMark(r) && made.ok {
      var t := r.target.value;
      if WF(made.fs) { RemoveKeepsWF(made.fs, t); }
      if IsFile(fs, t) && !Overwrites(rows, t) { MkdirAllIff(fs, r.path); }
    }
  }

  /** The condition stays as files only go. */
  lemma StaysSpared(fs: FS, rows: seq<Affected>, todo: seq<Affected>, after: FS)
    requires AllSpared(fs, rows, todo) && KeepsFiles(fs, rows, after)
    ensures AllSpared(after, rows, todo)
  {
    forall r | r in todo ensures Spared(after, rows, r) { assert Spared(fs, rows, r); }
  }

  lemma {:induction false} DirRowsKeepFiles(snaps: Snaps, fs: FS, rows: seq<Affected>, todo: seq<Affected>)
    requires AllSpared(fs, rows, todo) && forall r :: r in todo ==> r in rows && IsDirRow(r)
    ensures KeepsFiles(fs, rows, RestoreAll(snaps, fs, todo).fs)
    decreases |todo|
  {
    if todo != [] {
      var next := RestoreRow(snaps, fs, todo[0]).fs;
      DirRowKeepsFiles(snaps, fs, rows, todo[0]);
      StaysSpared(fs, rows, todo[1..], next);
      DirRowsKeepFiles(snaps, next, rows, todo[1..]);
    }
  }

  // ---- the file rows ----

  lemma FileRowKeepsData(snaps: Snaps, fs: FS, rows: seq<Affected>, r: Affected, bytes: Bytes)
    requires Distinct(rows) && NoSelfMove(rows) && r in rows && IsFileRow(r) && Held(fs, rows, bytes)
    ensures Held(RestoreRow(snaps, fs, r).fs, rows, bytes)
  {
    var p :| p in fs && fs[p] == File(bytes) && !Overwrites(rows, p);
    var after := RestoreRow(snaps, fs, r).fs;
    MkdirAllKeeps(fs, Parent(r.path));
    if r.op == OpModify {
      assert Overwrites(rows, r.path);
      assert p in after && after[p] == File(bytes);
    } else if p !in after {
      assert r.op == OpRename && r.target == Some(p);
      assert after[r.path] == File(bytes);
      forall m | m in rows && m.op == OpModify ensures m.path != r.path {
        var i, j :| 0 <= i < |rows| && 0 <= j < |rows| && rows[i] == m && rows[j] == r;
      }
      assert !Overwrites(rows, r.path);
    } else {
      assert after[p] == File(bytes);
    }
  }

  lemma {:induction false} FileRowsKeepData(snaps: Snaps, fs: FS, rows: seq<Affected>, todo: seq<Affected>, bytes: Bytes)
    requires Distinct(rows) && NoSelfMove(rows) && Held(fs, rows, bytes)
    requires forall r :: r in todo ==> r in rows && IsFileRow(r)
    ensures Held(RestoreAll(snaps, fs, todo).fs, rows, bytes)
    decreases |todo|
  {
    if todo != [] {
      FileRowKeepsData(snaps, fs, rows, todo[0], bytes);
      FileRowsKeepData(snaps, RestoreRow(snaps, fs, todo[0]).fs, rows, todo[1..], bytes);
    }
  }

  lemma {:induction false} PlanParts(rows: seq<Affected>)
    ensures forall r :: r in Dirs(rows) <==> r in rows && IsDirRow(r)
    ensures forall r :: r in Files(rows) <==> r in rows && IsFileRow(r)
  {
    if rows != [] {
      PlanParts(rows[1..]);
      assert rows == [rows[0]] + rows[1..];
    }
  }

  /** Restoring an event loses no live data: from any file system and any snapshot store,
      intact or not, and whether or not rows fail, every byte string that stands in a file
      the event did not record as overwritten still stands in such a file afterwards, when
      no live file is at the target of a directory rename. */
  lemma NoLiveDataLost(snaps: Snaps, fs: FS, rows: seq<Affected>)
    requires Distinct(rows) && NoSelfMove(rows) && AllSpared(fs, rows, rows)
    ensures forall bytes :: Held(fs, rows, bytes) ==> Held(RestoreEvent(snaps, fs, rows).fs, rows, bytes)
  {
    PlanParts(rows);
    var middle := RestoreAll(snaps, fs, Dirs(rows)).fs;
    DirRowsKeepFiles(snaps, fs, rows, Dirs(rows));
    RestoreInTwo(snaps, fs, Dirs(rows), Files(rows));
    forall bytes | Held(fs, rows, bytes) ensures Held(RestoreEvent(snaps, fs, rows).fs, rows, bytes) {
      var p :| p in fs && fs[p] == File(bytes) && !Overwrites(rows, p);
      assert middle[p] == File(bytes);
      FileRowsKeepData(snaps, middle, rows, Files(rows), bytes);
    }
  }

  // ---- when no disk loses anything ----

  /** No directory rename of the event can cost a live file on any disk. */
  ghost predicate SafeRows(rows: seq<Affected>) {
    forall r :: r in rows && IsMoveMark(r) ==> SafeMark(rows, r)
  }

  ghost predicate SafeMark(rows: seq<Affected>, r: Affected)
    requires IsMoveMark(r)
  {
    r.target.value == [] || Overwrites(rows, r.target.value) || Covers(r.target.value, r.path)
  }

  ghost predicate LosesNothing(snaps: Snaps, fs: FS, rows: seq<Affected>) {
    forall bytes :: Held(fs, rows, bytes) ==> Held(RestoreEvent(snaps, fs, rows).fs, rows, bytes)
  }

  /** A disk with nothing on it but one file, at t. */
  ghost function Lone(t: Path, bytes: Bytes): FS {
    (map n | 0 <= n <= |t| :: t[..n] := Dir)[t := File(bytes)]
  }

  lemma LoneIs(t: Path, bytes: Bytes)
    requires t != []
    ensures WF(Lone(t, bytes)) && forall p :: IsFile(Lone(t, bytes), p) <==> p == t
    ensures Lone(t, bytes)[t] == File(bytes)
  {
    var fs := Lone(t, bytes);
    assert t[..0] == [];
    forall p, q | p in fs && Above(q, p) ensures q in fs && fs[q].Dir? {
      assert t[..|p|] == p && p[..|q|] == t[..|q|];
      assert q == t[..|q|];
    }
  }

  /** With an empty store, restoring makes no files. */
  lemma NoStoreNoFiles(fs: FS, r: Affected)
    requires WF(fs)
    ensures var after := RestoreRow(map[], fs, r).fs;
      WF(after) && forall p :: IsFile(after, p) ==> IsFile(fs, p)
  {
    MkdirAllKeeps(fs, r.path);
    MkdirAllKeeps(fs, Parent(r.path));
    MkdirAllKeepsWF(fs, r.path);
    MkdirAllKeepsWF(fs, Parent(r.path));
    if r.target.Some? { RemoveKeepsWF(MkdirAll(fs, r.path).fs, r.target.value); }
  }

  lemma {:induction false} NoStoreKeepsNone(fs: FS, todo: seq<Affected>, t: Path)
    requires WF(fs) && forall p :: IsFile(fs, p) ==> p == t
    ensures forall p :: IsFile(RestoreAll(map[], fs, todo).fs, p) ==> p == t && IsFile(fs, t)
    decreases |todo|
  {
    if todo != [] {
      NoStoreNoFiles(fs, todo[0]);
      NoStoreKeepsNone(RestoreRow(map[], fs, todo[0]).fs, todo[1..], t);
    }
  }

  /** The marker's target goes, whatever it holds. */
  lemma MarkRemoves(fs: FS, r: Affected)
    requires WF(fs) && IsMoveMark(r) && r.target.value != [] && !Covers(r.target.value, r.path)
    requires forall p :: IsFile(fs, p) ==> p == r.target.value
    ensures !IsFile(RestoreRow(map[], fs, r).fs, r.target.value)
  {
    var t := r.target.value;
    forall q | q in fs && q != t ensures fs[q].Dir? { assert !IsFile(fs, q); }
    MkdirAllIff(fs, r.path);
    MkdirAllKeeps(fs, r.path);
    assert r.op == OpRename && r.dir.None?;
  }

  lemma {:induction false} MarkIsReached(fs: FS, todo: seq<Affected>, r: Affected)
    requires r in todo && WF(fs) && IsMoveMark(r) && r.target.value != [] && !Covers(r.target.value, r.path)
    requires forall p :: IsFile(fs, p) ==> p == r.target.value
    ensures forall p :: !IsFile(RestoreAll(map[], fs, todo).fs, p)
    decreases |todo|
  {
    var t := r.target.value;
    var next := RestoreRow(map[], fs, todo[0]).fs;
    NoStoreNoFiles(fs, todo[0]);
    if todo[0] == r {
      MarkRemoves(fs, r);
      NoStoreKeepsNone(next, todo[1..], t);
    } else {
      MarkIsReached(next, todo[1..], r);
    }
  }

  /** A live file at the target of a directory rename is lost: undo removes it whatever it holds. */
  lemma MarkLosesFile(rows: seq<Affected>, r: Affected, bytes: Bytes)
    requires r in rows && IsMoveMark(r) && !SafeMark(rows, r)
    ensures var fs := Lone(r.target.value, bytes); WF(fs) && !LosesNothing(map[], fs, rows)
  {
    var t := r.target.value;
    var fs := Lone(t, bytes);
    LoneIs(t, bytes);
    PlanParts(rows);
    MarkIsReached(fs, Plan(rows), r);
    assert t in fs && fs[t] == File(bytes) && !Overwrites(rows, t);
    assert Held(fs, rows, bytes);
    NoFilesHoldNothing(RestoreEvent(map[], fs, rows).fs, rows, bytes);
  }

  lemma NoFilesHoldNothing(fs: FS, rows: seq<Affected>, bytes: Bytes)
    requires forall p :: !IsFile(fs, p)
    ensures !Held(fs, rows, bytes)
  {
    forall p | p in fs ensures fs[p] != File(bytes) { assert !IsFile(fs, p); }
  }

  /** The loss is silent: with that one row, undo reports success. */
  lemma SilentLoss(r: Affected, bytes: Bytes)
    requires IsMoveMark(r) && r.target.value != [] && !Covers(r.target.value, r.path)
    ensures var fs := Lone(r.target.value, bytes);
      WF(fs) && RestoreEvent(map[], fs, [r]).ok && !LosesNothing(map[], fs, [r])
  {
    var t := r.target.value;
    var fs := Lone(t, bytes);
    LoneIs(t, bytes);
    MarkLosesFile([r], r, bytes);
    forall q | q in fs && q != t ensures fs[q].Dir? { assert !IsFile(fs, q); }
    MkdirAllIff(fs, r.path);
    MarkPlan([r], r);
    assert [r][1..] == [] && Plan([r][1..]) == [];
    assert Plan([r]) == [r];
    assert RestoreRow(map[], fs, r).ok;
    assert RestoreAll(map[], RestoreRow(map[], fs, r).fs, [r][1..]).ok;
  }

  /** A leading marker is restored first. */
  lemma MarkPlan(rows: seq<Affected>, r: Affected)
    requires rows != [] && rows[0] == r && IsDirRow(r)
    ensures Plan(rows) == [r] + Plan(rows[1..])
  {
  }

  /** An event with distinct paths and no rename onto itself loses nothing on any disk and with
      any store if and only if each directory rename's target is one that no live file can be
      lost at: the root, a path whose old bytes are saved, or one at or above the source. */
  lemma NoDataLostIff(rows: seq<Affected>)
    requires Distinct(rows) && NoSelfMove(rows)
    ensures (forall snaps, fs :: WF(fs) ==> LosesNothing(snaps, fs, rows)) <==> SafeRows(rows)
  {
    if SafeRows(rows) {
      forall snaps, fs | WF(fs) ensures LosesNothing(snaps, fs, rows) {
        forall r | r in rows ensures Spared(fs, rows, r) { }
        NoLiveDataLost(snaps, fs, rows);
      }
    } else {
      var r :| r in rows && IsMoveMark(r) && !SafeMark(rows, r);
      MarkLosesFile(rows, r, []);
      assert !LosesNothing(map[], Lone(r.target.value, []), rows);
    }
  }

  /** A file moved onto itself makes the event unrecordable: its path gets two rows. */
  lemma SelfMoveRejected(cfg: Config, fs: FS, snaps: Snaps, src: Path, dst: Path, rows: seq<Affected>)
    requires MoveRows(cfg, fs, snaps, src, dst, rows) && IsFile(fs, src) && Resolved(fs, src, dst) == src
    ensures !Distinct(rows)
  {
    assert rows[..|rows| - 1][0] == rows[0];
    assert rows[|rows| - 1..][0] == rows[|rows| - 1];
  }

  // ---- moving a directory ----

  /** Where a path lands when the tree at src moves to target. */
  function Rebase(q: Path, src: Path, target: Path): Path
    requires |src| <= |q|
  {
    target + q[|src|..]
  }

  lemma RebaseBack(q: Path, src: Path, target: Path)
    requires Covers(src, q)
    ensures Rebase(Rebase(q, src, target), target, src) == q
    ensures Covers(target, Rebase(q, src, target))
    ensures Above(src, q) ==> Above(target, Rebase(q, src, target))
  {
    var moved := Rebase(q, src, target);
    assert moved[|target|..] == q[|src|..] && moved[..|target|] == target;
    assert src + q[|src|..] == q;
  }

  /** The file system after a directory has moved whole, to a path that was free. */
  ghost function MovedTree(fs: FS, src: Path, target: Path): FS {
    var kept := map q | q in fs && !Covers(src, q) :: fs[q];
    var there := set q | q in fs && Covers(src, q) :: Rebase(q, src, target);
    kept + map p | p in there && |target| <= |p| && Rebase(p, target, src) in fs :: fs[Rebase(p, target, src)]
  }

  /** In a moved tree, what was below the source is below the target. */
  lemma MovedChild(fs: FS, src: Path, target: Path, q: Path)
    requires q in fs && Covers(src, q)
    ensures var x := Rebase(q, src, target);
      x in MovedTree(fs, src, target) && MovedTree(fs, src, target)[x] == fs[q]
  {
    RebaseBack(q, src, target);
  }

  /** Rows that remove nothing once the moved directory has something in it. */
  ghost predicate KeepsTarget(rows: seq<Affected>, target: Path) {
    forall r :: r in rows ==> r.op == OpDelete || r.op == OpSkipped || (r.op == OpRename && r.dir.None? && r.target == Some(target))
  }

  lemma {:induction false} TargetStays(snaps: Snaps, fs: FS, rows: seq<Affected>, target: Path, x: Path)
    requires KeepsTarget(rows, target) && IsDir(fs, target) && x in fs && Above(target, x)
    ensures x in RestoreAll(snaps, fs, rows).fs
    decreases |rows|
  {
    if rows != [] {
      MkdirAllKeeps(fs, rows[0].path);
      MkdirAllKeeps(fs, Parent(rows[0].path));
      TargetStays(snaps, RestoreRow(snaps, fs, rows[0]).fs, rows[1..], target, x);
    }
  }

  lemma MovedEmpty(fs: FS, src: Path, target: Path)
    requires WF(fs) && IsDir(fs, src) && !Covers(src, target) && target !in fs
    requires forall q :: q in fs ==> !Above(src, q)
    ensures MovedTree(fs, src, target) == (fs - {src})[target := Dir]
  {
    forall q ensures Covers(src, q) <==> q == src || Above(src, q) { CoversParent(src, q); }
    assert Rebase(src, src, target) == target && Rebase(target, target, src) == src;
  }

  /** An empty directory comes back, and its moved copy goes. */
  lemma EmptyMoveUndone(snaps: Snaps, fs: FS, src: Path, target: Path, mark: Affected)
    requires WF(fs) && IsDir(fs, src) && src != [] && target != [] && src != target && target !in fs
    requires mark.op == OpRename && mark.dir.None? && mark.path == src && mark.target == Some(target)
    ensures RestoreEvent(snaps, (fs - {src})[target := Dir], [mark]) == Outcome(fs, true)
  {
    var moved := (fs - {src})[target := Dir];
    assert Above(Parent(src), src);
    assert IsDir(moved, Parent(src));
    assert MkdirAll(moved, Parent(src)) == Outcome(moved, true);
    var made := MkdirAll(moved, src);
    assert made == Outcome(moved[src := Dir], true);
    assert Remove(made.fs, target) == made.fs - {target};
    assert made.fs - {target} == fs;
    assert RestoreRow(snaps, moved, mark) == Outcome(fs, true);
    assert [mark][1..] == [];
    assert Dirs([mark][1..]) == [] && Files([mark][1..]) == [];
    assert Plan([mark]) == [mark];
    var one := [mark];
    assert RestoreAll(snaps, fs, one[1..]) == Outcome(fs, true);
    assert RestoreAll(snaps, moved, one) == Outcome(fs, true);
  }

  lemma DirMoveRows(cfg: Config, fs: FS, snaps: Snaps, src: Path, dst: Path, rows: seq<Affected>)
    requires MoveRows(cfg, fs, snaps, src, dst, rows) && IsDir(fs, src) && Resolved(fs, src, dst) !in fs
    ensures rows[0] == Bare(src, OpRename, NoReason).(target := Some(Resolved(fs, src, dst)))
    ensures KeepsTarget(rows, Resolved(fs, src, dst))
    ensures (forall q :: q in fs ==> !Above(src, q)) ==> rows == [rows[0]]
  {
    assert rows[..|rows|] == rows;
    FirstPath(rows[1..]);
    forall r | r in rows[1..] ensures r.op == OpDelete || r.op == OpSkipped {
      assert r.path in PathsOf(rows[1..]);
    }
    assert rows == [rows[0]] + rows[1..];
  }

  /** Undoing a completed `mv` of a directory to a free path is exact if and only if the
      directory was empty: otherwise the moved tree stays behind. */
  lemma UndoDirMoveIff(cfg: Config, snaps: Snaps, fs: FS, src: Path, dst: Path, rows: seq<Affected>)
    requires WF(fs) && IsDir(fs, src)
    requires MoveRows(cfg, fs, snaps, src, dst, rows)
    requires var target := Resolved(fs, src, dst);
      !Covers(src, target) && target !in fs && IsDir(fs, Parent(target))
    ensures var after := MovedTree(fs, src, Resolved(fs, src, dst));
      RestoreEvent(snaps, after, rows).fs == fs <==> forall q :: q in fs ==> !Above(src, q)
  {
    var target := Resolved(fs, src, dst);
    var after := MovedTree(fs, src, target);
    DirMoveRows(cfg, fs, snaps, src, dst, rows);
    if q :| q in fs && Above(src, q) {
      var x := Rebase(q, src, target);
      RebaseBack(q, src, target);
      MovedChild(fs, src, target, q);
      assert Covers(src, src) && Rebase(src, src, target) == target;
      MovedChild(fs, src, target, src);
      PlanInRows(rows);
      TargetStays(snaps, after, Plan(rows), target, x);
      assert x !in fs;
    } else {
      MovedEmpty(fs, src, target);
      EmptyMoveUndone(snaps, fs, src, target, rows[0]);
    }
  }

  // ---- a directory move that stopped anywhere ----

  /** after is what any part of moving the directory src to target makes of fs, be it one
      rename or a copy and removals: anything may be at or below the target, and some or all of
      the source may be gone. */
  ghost predicate DirMoveAt(fs: FS, src: Path, target: Path, after: FS) {
    && WF(after)
    && forall p :: !Covers(target, p) ==> SameAt(after, fs, p) || (Covers(src, p) && p !in after)
  }

  /** The move of the whole tree is one such state. */
  lemma MovedTreeAt(fs: FS, src: Path, target: Path)
    requires WF(fs) && IsDir(fs, src) && !Covers(src, target) && target !in fs && WF(MovedTree(fs, src, target))
    ensures DirMoveAt(fs, src, target, MovedTree(fs, src, target))
  {
    forall q | q in fs && Covers(src, q) ensures Covers(target, Rebase(q, src, target)) { RebaseBack(q, src, target); }
  }

  /** fs with what is at or below the target by then. */
  ghost function WithMoved(fs: FS, target: Path, after: FS): FS {
    fs + map p | p in after && Covers(target, p) :: after[p]
  }

  lemma WithMovedIs(fs: FS, target: Path, after: FS, p: Path)
    requires WF(fs) && target !in fs
    ensures SameAt(WithMoved(fs, target, after), if Covers(target, p) then after else fs, p)
    ensures Covers(target, p) ==> p !in fs
  {
    CoversParent(target, p);
  }

  lemma WithMovedWF(fs: FS, target: Path, after: FS)
    requires WF(fs) && WF(after) && target !in fs && IsDir(fs, Parent(target))
    ensures WF(WithMoved(fs, target, after))
  {
    var g := WithMoved(fs, target, after);
    WithMovedIs(fs, target, after, []);
    forall p, q | p in g && Above(q, p) ensures IsDir(g, q) {
      WithMovedIs(fs, target, after, p);
      WithMovedIs(fs, target, after, q);
      if Covers(target, p) && !Covers(target, q) { AboveTarget(fs, target, p, q); }
    }
  }

  /** What is above a path below the target, but not itself below it, is a directory of fs. */
  lemma AboveTarget(fs: FS, target: Path, p: Path, q: Path)
    requires WF(fs) && IsDir(fs, Parent(target)) && Covers(target, p) && Above(q, p) && !Covers(target, q)
    ensures IsDir(fs, q)
  {
    OnOneWay(target, q, p);
    AboveParent(q, target);
    CoversParent(q, Parent(target));
  }

  /** The rows of a moved directory, with its marker read as that of a removed one. */
  function AsRemoval(src: Path, kids: seq<Affected>): seq<Affected> {
    [Bare(src, OpDelete, NoReason)] + kids
  }

  /** Everything in a moved directory was saved as if it was to be removed. */
  ghost predicate SavedDir(cfg: Config, fs: FS, snaps: Snaps, src: Path, dst: Path, rows: seq<Affected>) {
    && IsDir(fs, src) && MoveRows(cfg, fs, snaps, src, dst, rows) && Resolved(fs, src, dst) !in fs
    && Distinct(rows) && forall r :: r in rows ==> r.op != OpSkipped
  }

  lemma KidRow(cfg: Config, fs: FS, snaps: Snaps, src: Path, dst: Path, rows: seq<Affected>, r: Affected)
    requires SavedDir(cfg, fs, snaps, src, dst, rows) && r in rows[1..]
    ensures TreeRow(cfg, fs, snaps, r) && r.op == OpDelete && r.target.None? && r.path in fs
  {
    assert rows[..|rows|] == rows;
    assert r in rows && r.path in PathsOf(rows[1..]);
  }

  lemma AsRemovalRows(cfg: Config, fs: FS, snaps: Snaps, src: Path, dst: Path, rows: seq<Affected>)
    requires SavedDir(cfg, fs, snaps, src, dst, rows)
    ensures forall r :: r in AsRemoval(src, rows[1..]) ==> TreeRow(cfg, fs, snaps, r) && r.op == OpDelete && r.target.None? && r.path in fs
  {
    forall r | r in rows[1..] ensures TreeRow(cfg, fs, snaps, r) && r.op == OpDelete && r.target.None? && r.path in fs {
      KidRow(cfg, fs, snaps, src, dst, rows, r);
    }
  }

  lemma AsRemovalDistinct(cfg: Config, fs: FS, snaps: Snaps, src: Path, dst: Path, rows: seq<Affected>)
    requires SavedDir(cfg, fs, snaps, src, dst, rows)
    ensures Distinct(AsRemoval(src, rows[1..]))
  {
    var list := AsRemoval(src, rows[1..]);
    assert rows[..|rows|] == rows && rows[0].path == src;
    forall i, j | 0 <= i < j < |list| ensures list[i].path != list[j].path {
      assert list[i].path == rows[i].path && list[j].path == rows[j].path;
    }
  }

  lemma AsRemovalCovers(cfg: Config, fs: FS, snaps: Snaps, src: Path, dst: Path, rows: seq<Affected>, p: Path)
    requires SavedDir(cfg, fs, snaps, src, dst, rows) && p in fs && Covers(src, p)
    ensures exists r :: r in AsRemoval(src, rows[1..]) && r.path == p
  {
    var list := AsRemoval(src, rows[1..]);
    assert rows[..|rows|] == rows;
    CoversParent(src, p);
    if p == src {
      assert list[0] in list;
    } else {
      assert p in PathsOf(rows[1..]);
      var r :| r in rows[1..] && r.path == p;
      assert r in list;
    }
  }

  lemma AsRemovalRecord(cfg: Config, fs: FS, snaps: Snaps, src: Path, dst: Path, rows: seq<Affected>)
    requires SavedDir(cfg, fs, snaps, src, dst, rows)
    ensures var list := AsRemoval(src, rows[1..]);
      && Record(fs, snaps, list)
      && (forall r :: r in list ==> r.op == OpDelete && r.target.None? && r.path in fs)
      && (forall p :: p in fs && Covers(src, p) ==> exists r :: r in list && r.path == p)
  {
    AsRemovalRows(cfg, fs, snaps, src, dst, rows);
    AsRemovalDistinct(cfg, fs, snaps, src, dst, rows);
    TreeRowsRecord(cfg, fs, snaps, AsRemoval(src, rows[1..]));
    forall p | p in fs && Covers(src, p) ensures exists r :: r in AsRemoval(src, rows[1..]) && r.path == p {
      AsRemovalCovers(cfg, fs, snaps, src, dst, rows, p);
    }
  }

  /** Over fs with what has moved, the rest of the damage is accounted for. */
  lemma MovedDamage(fs: FS, src: Path, target: Path, after: FS, list: seq<Affected>)
    requires WF(fs) && target !in fs && DirMoveAt(fs, src, target, after)
    requires forall r :: r in list ==> r.op == OpDelete
    requires forall p :: p in fs && Covers(src, p) ==> exists r :: r in list && r.path == p
    ensures Damage(WithMoved(fs, target, after), list, after)
  {
    var g := WithMoved(fs, target, after);
    forall p ensures SameAt(after, g, p) || exists r :: r in list && Explains(g, after, r, p) {
      WithMovedIs(fs, target, after, p);
      if !SameAt(after, g, p) {
        assert p in fs && Covers(src, p) && p !in after;
        var r :| r in list && r.path == p;
        assert Covers(p, p);
        assert Explains(g, after, r, p);
      }
    }
  }

  lemma {:induction false} MovedRecord(fs: FS, snaps: Snaps, target: Path, after: FS, list: seq<Affected>)
    requires WF(fs) && target !in fs && Record(fs, snaps, list)
    requires forall r :: r in list ==> r.op == OpDelete && r.path in fs
    ensures Record(WithMoved(fs, target, after), snaps, list)
  {
    if list != [] {
      assert list[0] in list;
      WithMovedIs(fs, target, after, list[0].path);
      MovedRecord(fs, snaps, target, after, list[1..]);
    }
  }

  /** Removing the target after its directory is back: it goes if nothing is below it. */
  lemma TargetRemoved(fs: FS, src: Path, target: Path, after: FS, put: FS, list: seq<Affected>)
    requires WF(fs) && WF(after) && target !in fs && target != [] && IsDir(fs, src)
    requires put == MkdirAll(after, src).fs && Damage(WithMoved(fs, target, after), list, put)
    ensures var bare := forall q :: q in after ==> !Above(target, q);
      Damage(if bare then fs else WithMoved(fs, target, after), list, Remove(put, target))
  {
    var g := WithMoved(fs, target, after);
    MkdirAllKeeps(after, src);
    if q :| q in after && Above(target, q) {
      assert q in put && put[target].Dir?;
      assert Remove(put, target) == put;
    } else {
      BareTarget(fs, src, target, after, put);
      RemoveKeepsWF(put, target);
      forall p ensures SameAt(Remove(put, target), fs, p) || exists r :: r in list && Explains(fs, Remove(put, target), r, p) {
        WithMovedIs(fs, target, after, p);
        CoversParent(target, p);
        if p != target && !SameAt(put, g, p) {
          var r :| r in list && Explains(g, put, r, p);
          assert Explains(fs, Remove(put, target), r, p);
        }
      }
    }
  }

  lemma BareTarget(fs: FS, src: Path, target: Path, after: FS, put: FS)
    requires WF(fs) && target !in fs && target != [] && IsDir(fs, src) && put == MkdirAll(after, src).fs
    requires forall q :: q in after ==> !Above(target, q)
    ensures target !in Remove(put, target)
  {
    MkdirAllKeeps(after, src);
    CoversParent(target, src);
    assert !Covers(target, src);
    forall q | q in put ensures !Above(target, q) {
      if q !in after { CoversTrans(target, q, src); }
    }
  }

  lemma MovePlans(rows: seq<Affected>, src: Path, target: Path)
    requires rows != [] && rows[0] == Bare(src, OpRename, NoReason).(target := Some(target))
    ensures Plan(rows) == [rows[0]] + Plan(rows[1..])
    ensures Plan(AsRemoval(src, rows[1..])) == [Bare(src, OpDelete, NoReason)] + Plan(rows[1..])
  {
    var list := AsRemoval(src, rows[1..]);
    MarkPlan(rows, rows[0]);
    MarkPlan(list, list[0]);
    assert list[1..] == rows[1..];
  }

  /** One undo of a directory move, whatever point it got to. */
  lemma DirMoveUndone(cfg: Config, snaps: Snaps, fs: FS, src: Path, dst: Path, rows: seq<Affected>, after: FS)
    requires WF(fs) && IsDir(fs, src)
    requires MoveRows(cfg, fs, snaps, src, dst, rows) && Distinct(rows) && forall r :: r in rows ==> r.op != OpSkipped
    requires var target := Resolved(fs, src, dst);
      !Covers(src, target) && target !in fs && IsDir(fs, Parent(target)) && DirMoveAt(fs, src, target, after)
    ensures var target := Resolved(fs, src, dst);
      RestoreEvent(snaps, after, rows) ==
      Outcome(if forall q :: q in after ==> !Above(target, q) then fs else WithMoved(fs, target, after), true)
  {
    var target, kids := Resolved(fs, src, dst), rows[1..];
    var list, rest := AsRemoval(src, kids), Plan(kids);
    AsRemovalRecord(cfg, fs, snaps, src, dst, rows);
    DirMoveRows(cfg, fs, snaps, src, dst, rows);
    MovePlans(rows, src, target);
    PlanRecord(fs, snaps, list);
    RestOfMove(snaps, fs, src, target, after, Plan(list));
    assert Plan(list)[1..] == rest && Plan(rows)[1..] == rest;
    MarkFirst(snaps, after, rows[0], src, target, Plan(rows));
  }

  lemma MarkFirst(snaps: Snaps, fs: FS, mark: Affected, src: Path, target: Path, plan: seq<Affected>)
    requires plan != [] && plan[0] == mark == Bare(src, OpRename, NoReason).(target := Some(target)) && MkdirAll(fs, src).ok
    ensures var rest := RestoreAll(snaps, Remove(MkdirAll(fs, src).fs, target), plan[1..]);
      RestoreAll(snaps, fs, plan) == rest
  {
  }

  /** Undoing a `mv` of a directory to a free path that got to any point, when everything in it
      was saved, succeeds; and it is exact if and only if nothing is below the target by then. */
  lemma UndoDirMoveAnywhereIff(cfg: Config, snaps: Snaps, fs: FS, src: Path, dst: Path, rows: seq<Affected>, after: FS)
    requires WF(fs) && IsDir(fs, src)
    requires MoveRows(cfg, fs, snaps, src, dst, rows) && Distinct(rows) && forall r :: r in rows ==> r.op != OpSkipped
    requires var target := Resolved(fs, src, dst);
      !Covers(src, target) && target !in fs && IsDir(fs, Parent(target)) && DirMoveAt(fs, src, target, after)
    ensures var undone := RestoreEvent(snaps, after, rows);
      undone.ok && (undone.fs == fs <==> forall q :: q in after ==> !Above(Resolved(fs, src, dst), q))
  {
    var target := Resolved(fs, src, dst);
    DirMoveUndone(cfg, snaps, fs, src, dst, rows, after);
    forall q | q in after && Above(target, q) ensures WithMoved(fs, target, after) != fs {
      WithMovedIs(fs, target, after, q);
    }
  }

  lemma RestOfMove(snaps: Snaps, fs: FS, src: Path, target: Path, after: FS, plan: seq<Affected>)
    requires WF(fs) && target !in fs && target != [] && IsDir(fs, src) && IsDir(fs, Parent(target))
    requires DirMoveAt(fs, src, target, after)
    requires plan != [] && plan[0] == Bare(src, OpDelete, NoReason) && Record(fs, snaps, plan)
    requires forall r :: r in plan ==> r.op == OpDelete && r.path in fs
    requires forall p :: p in fs && Covers(src, p) ==> exists r :: r in plan && r.path == p
    ensures MkdirAll(after, src).ok
    ensures var bare := forall q :: q in after ==> !Above(target, q);
      RestoreAll(snaps, Remove(MkdirAll(after, src).fs, target), plan[1..])
      == Outcome(if bare then fs else WithMoved(fs, target, after), true)
  {
    var g := WithMoved(fs, target, after);
    var bare := forall q :: q in after ==> !Above(target, q);
    WithMovedWF(fs, target, after);
    MovedDamage(fs, src, target, after, plan);
    MovedRecord(fs, snaps, target, after, plan);
    RestoreStep(g, snaps, plan, after);
    TargetRemoved(fs, src, target, after, MkdirAll(after, src).fs, plan[1..]);
    RestoreAllExact(if bare then fs else g, snaps, plan[1..], Remove(MkdirAll(after, src).fs, target));
  }
}
