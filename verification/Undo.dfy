/** Replaying one event: RestoreEvent, and what it guarantees. */
module Undo {
  import opened Wrappers
  import opened FileSystem
  import opened Snapshot

  predicate IsDirRow(r: Affected) {
    (r.op == OpDelete || r.op == OpRename) && r.dir.None?
  }

  predicate IsFileRow(r: Affected) {
    (r.op == OpDelete || r.op == OpRename || r.op == OpModify) && r.dir.Some?
  }

  function Dirs(rows: seq<Affected>): seq<Affected> {
    if |rows| == 0 then []
    else if IsDirRow(rows[0]) then [rows[0]] + Dirs(rows[1..])
    else Dirs(rows[1..])
  }

  function Files(rows: seq<Affected>): seq<Affected> {
    if |rows| == 0 then []
    else if IsFileRow(rows[0]) then [rows[0]] + Files(rows[1..])
    else Files(rows[1..])
  }

  /** The order RestoreEvent works in: directory markers first, then files. */
  function Plan(rows: seq<Affected>): seq<Affected> {
    Dirs(rows) + Files(rows)
  }

  lemma {:induction false} PlanInRows(rows: seq<Affected>)
    ensures forall r :: r in Dirs(rows) || r in Files(rows) ==> r in rows
  {
    if rows != [] { PlanInRows(rows[1..]); }
  }

  function RestoreEvent(snaps: Snaps, fs: FS, rows: seq<Affected>): Outcome {
    RestoreAll(snaps, fs, Plan(rows))
  }

  lemma {:induction false} RestoreInTwo(snaps: Snaps, fs: FS, a: seq<Affected>, b: seq<Affected>)
    ensures var first := RestoreAll(snaps, fs, a); var second := RestoreAll(snaps, first.fs, b);
      RestoreAll(snaps, fs, a + b) == Outcome(second.fs, first.ok && second.ok)
    decreases |a|
  {
    if a == [] {
      assert a + b == b;
    } else {
      assert (a + b)[1..] == a[1..] + b;
      RestoreInTwo(snaps, RestoreRow(snaps, fs, a[0]).fs, a[1..], b);
    }
  }

  // ---- when an event can be undone exactly ----

  /** A row that says the truth about the file system g and is backed by the store. */
  ghost predicate RowOk(g: FS, snaps: Snaps, r: Affected) {
    match r.op
    case OpDelete => if r.dir.None? then IsDir(g, r.path) else Saved(g, snaps, r)
    case OpRename => r.dir.Some? && Saved(g, snaps, r)
    case OpModify => r.dir.Some? && Saved(g, snaps, r)
    case OpAbsent => r.path !in g
    case OpSkipped => false
  }

  /** A file at the target of a rename is saved by a later row, or is not what was moved. */
  ghost predicate OverwriteFollows(g: FS, r: Affected, later: seq<Affected>) {
    r.op == OpRename && r.target.Some? && IsFile(g, r.target.value) ==>
      || (exists m :: m in later && m.op == OpModify && m.path == r.target.value)
      || (r.digest.Some? && g[r.target.value] != File(r.digest.value.of))
  }

  /** rows is a complete and truthful record over g: every row is backed, no path occurs
      twice, and overwritten bytes are saved after the rename that overwrites them. */
  ghost predicate Record(g: FS, snaps: Snaps, rows: seq<Affected>) {
    rows != [] ==>
      && RowOk(g, snaps, rows[0])
      && rows[0].path !in PathsOf(rows[1..])
      && OverwriteFollows(g, rows[0], rows[1..])
      && Record(g, snaps, rows[1..])
  }

  /** How a path may differ from g while r is still to be restored: the path or something
      on the way to it is gone, overwritten bytes are there, or the moved bytes are. */
  ghost predicate Explains(g: FS, fs: FS, r: Affected, p: Path) {
    || (r.op != OpAbsent && Covers(p, r.path) && p !in fs)
    || (r.op == OpModify && r.path == p && IsFile(fs, p))
    || (r.op == OpRename && r.target == Some(p) && p !in g && p in fs
        && r.digest.Some? && fs[p] == File(r.digest.value.of))
  }

  /** fs is g, damaged only in ways the rows account for. */
  ghost predicate Damage(g: FS, rows: seq<Affected>, fs: FS) {
    && WF(fs)
    && forall p :: SameAt(fs, g, p) || exists r :: r in rows && Explains(g, fs, r, p)
  }

  lemma RecordMember(g: FS, snaps: Snaps, rows: seq<Affected>, r: Affected)
    requires Record(g, snaps, rows) && r in rows
    ensures RowOk(g, snaps, r)
  {
    if r != rows[0] {
      assert r in rows[1..];
      RecordMember(g, snaps, rows[1..], r);
    }
  }

  /** A path that g says is a directory can be missing, but not be a file. */
  lemma DirOrMissing(g: FS, snaps: Snaps, rows: seq<Affected>, fs: FS, q: Path)
    requires Record(g, snaps, rows) && Damage(g, rows, fs) && IsDir(g, q)
    ensures q in fs ==> fs[q].Dir?
  {
    if q in fs && !SameAt(fs, g, q) {
      var r :| r in rows && Explains(g, fs, r, q);
      RecordMember(g, snaps, rows, r);
    }
  }

  /** Making p's missing parents goes through and only brings back what g has. */
  lemma MakesBack(g: FS, snaps: Snaps, rows: seq<Affected>, fs: FS, p: Path)
    requires WF(g) && Record(g, snaps, rows) && Damage(g, rows, fs) && IsDir(g, p)
    ensures var made := MkdirAll(fs, p);
      && made.ok && WF(made.fs)
      && (forall q :: !Covers(q, p) ==> SameAt(made.fs, fs, q))
      && (forall q :: Covers(q, p) ==> SameAt(made.fs, g, q))
  {
    forall q | Covers(q, p) ensures IsDir(g, q) && (q in fs ==> fs[q].Dir?) {
      CoversParent(q, p);
      DirOrMissing(g, snaps, rows, fs, q);
    }
    MkdirAllMakes(fs, p);
  }

  /** Rows of a record with the same path are the same row. */
  lemma SamePathSameRow(g: FS, snaps: Snaps, rows: seq<Affected>, x: Affected, y: Affected)
    requires Record(g, snaps, rows) && x in rows && y in rows && x.path == y.path
    ensures x == y
  {
    assert forall r :: r in rows ==> r == rows[0] || (r in rows[1..] && r.path in PathsOf(rows[1..]));
    if x != rows[0] && y != rows[0] {
      SamePathSameRow(g, snaps, rows[1..], x, y);
    }
  }

  /** Where a row's own path stands before the row is restored. */
  lemma OwnPath(g: FS, snaps: Snaps, rows: seq<Affected>, fs: FS)
    requires Record(g, snaps, rows) && Damage(g, rows, fs) && rows != [] && rows[0].op != OpAbsent
    ensures var p := rows[0].path;
      p in fs && fs[p] != g[p] ==> rows[0].op == OpModify && fs[p].File?
  {
    var p := rows[0].path;
    if p in fs && fs[p] != g[p] {
      assert !SameAt(fs, g, p);
      var r :| r in rows && Explains(g, fs, r, p);
      if r.path == p { SamePathSameRow(g, snaps, rows, r, rows[0]); }
    }
  }

  /** Restoring a file row puts its bytes back and touches nothing else but missing parents. */
  lemma FilePutBack(g: FS, snaps: Snaps, rows: seq<Affected>, fs: FS, force: bool)
    requires WF(g) && Record(g, snaps, rows) && Damage(g, rows, fs)
    requires rows != [] && rows[0].op != OpAbsent && rows[0].dir.Some?
    requires rows[0].op == OpModify ==> force
    ensures var r := rows[0]; var put := RestoreFile(snaps, fs, r, force);
      && put.ok && WF(put.fs)
      && (forall q :: !Covers(q, r.path) ==> SameAt(put.fs, fs, q))
      && (forall q :: Covers(q, r.path) ==> SameAt(put.fs, g, q))
  {
    var p := rows[0].path;
    OwnPath(g, snaps, rows, fs);
    assert p != [];
    assert Above(Parent(p), p);
    MakesBack(g, snaps, rows, fs, Parent(p));
    forall q ensures Covers(q, p) <==> q == p || Covers(q, Parent(p)) {
      CoversParent(q, p);
    }
    assert !Covers(p, Parent(p));
    assert Covers(Parent(p), Parent(p));
    var made := MkdirAll(fs, Parent(p)).fs;
    WriteKeepsWF(made, p, snaps[SlotOf(rows[0])]);
  }

  /** Restoring the first row of a record never fails, and leaves only damage that the
      remaining rows account for. */
  lemma RestoreStep(g: FS, snaps: Snaps, rows: seq<Affected>, fs: FS)
    requires WF(g) && Record(g, snaps, rows) && Damage(g, rows, fs)
    requires rows != [] && rows[0].op != OpAbsent
    ensures var put := RestoreRow(snaps, fs, rows[0]);
      put.ok && Damage(g, rows[1..], put.fs)
  {
    var r, later := rows[0], rows[1..];
    var put := RestoreRow(snaps, fs, r);
    assert Covers(r.path, r.path);
    var mid: FS;
    if r.dir.None? {
      MakesBack(g, snaps, rows, fs, r.path);
      mid := put.fs;
    } else {
      FilePutBack(g, snaps, rows, fs, r.op == OpModify);
      mid := RestoreFile(snaps, fs, r, r.op == OpModify).fs;
      if r.target.Some? { RemoveKeepsWF(mid, r.target.value); }
    }
    forall q ensures SameAt(put.fs, g, q) || exists x :: x in later && Explains(g, put.fs, x, q) {
      if SameAt(put.fs, mid, q) {
        if !Covers(q, r.path) && !SameAt(fs, g, q) {
          var x :| x in rows && Explains(g, fs, x, q);
          if x != r {
            assert x in later && Explains(g, put.fs, x, q);
          }
        }
      } else {
        Dropped(g, snaps, rows, fs, mid, put.fs, q);
      }
    }
  }

  /** Other bytes than g has are there only where a row says they were overwritten. */
  lemma OverwrittenRow(g: FS, rows: seq<Affected>, fs: FS, q: Path)
    requires Damage(g, rows, fs) && rows != [] && rows[0].op == OpRename
    requires q in g && q in fs && fs[q] != g[q]
    ensures exists m :: m in rows[1..] && m.op == OpModify && m.path == q
  {
    assert !SameAt(fs, g, q);
    var x :| x in rows && Explains(g, fs, x, q);
    assert x in rows[1..];
  }

  /** The only path the tidy step of a rename removes is one that g has not got, or whose
      old bytes a later row puts back. */
  lemma Dropped(g: FS, snaps: Snaps, rows: seq<Affected>, fs: FS, mid: FS, after: FS, q: Path)
    requires Record(g, snaps, rows) && Damage(g, rows, fs)
    requires rows != [] && rows[0].op == OpRename && after == DropMoved(mid, rows[0]) && !SameAt(after, mid, q)
    requires forall p :: !Covers(p, rows[0].path) ==> SameAt(mid, fs, p)
    requires forall p :: Covers(p, rows[0].path) ==> SameAt(mid, g, p)
    ensures SameAt(after, g, q) || exists x :: x in rows[1..] && Explains(g, after, x, q)
  {
    assert rows[0].target == Some(q) && IsFile(mid, q) && q !in after;
    assert SameAt(mid, fs, q) || SameAt(mid, g, q);
    if IsDir(g, q) {
      DirOrMissing(g, snaps, rows, fs, q);
    } else if q in g {
      if q in fs && fs[q] != g[q] { OverwrittenRow(g, rows, fs, q); }
      var m :| m in rows[1..] && m.op == OpModify && m.path == q;
      assert Covers(q, m.path);
      assert Explains(g, after, m, q);
    }
  }

  /** A whole plan of restorable rows brings the file system back to g without a failure. */
  lemma {:induction false} RestoreAllExact(g: FS, snaps: Snaps, rows: seq<Affected>, fs: FS)
    requires WF(g) && Record(g, snaps, rows) && Damage(g, rows, fs)
    requires forall r :: r in rows ==> r.op != OpAbsent
    ensures RestoreAll(snaps, fs, rows) == Outcome(g, true)
    decreases |rows|
  {
    if rows == [] {
      forall p ensures p in fs <==> p in g
               ensures p in fs ==> fs[p] == g[p]
      {
        assert SameAt(fs, g, p);
      }
    } else {
      RestoreStep(g, snaps, rows, fs);
      RestoreAllExact(g, snaps, rows[1..], RestoreRow(snaps, fs, rows[0]).fs);
    }
  }

  // ---- the plan of a record is a record ----

  lemma {:induction false} DirsRecord(g: FS, snaps: Snaps, rows: seq<Affected>)
    requires Record(g, snaps, rows)
    ensures Record(g, snaps, Dirs(rows))
    ensures forall r :: r in Dirs(rows) <==> r in rows && (r.op == OpDelete || r.op == OpRename) && r.dir.None?
  {
    if rows != [] {
      DirsRecord(g, snaps, rows[1..]);
      assert rows == [rows[0]] + rows[1..];
      assert PathsOf(Dirs(rows[1..])) <= PathsOf(rows[1..]);
      if Dirs(rows) != Dirs(rows[1..]) {
        assert Dirs(rows)[1..] == Dirs(rows[1..]);
      }
    }
  }

  lemma {:induction false} FilesRecord(g: FS, snaps: Snaps, rows: seq<Affected>)
    requires Record(g, snaps, rows)
    ensures Record(g, snaps, Files(rows))
    ensures forall r :: r in Files(rows) <==>
              r in rows && (r.op == OpDelete || r.op == OpRename || r.op == OpModify) && r.dir.Some?
  {
    if rows != [] {
      FilesRecord(g, snaps, rows[1..]);
      assert rows == [rows[0]] + rows[1..];
      assert PathsOf(Files(rows[1..])) <= PathsOf(rows[1..]);
      forall m | m in rows[1..] && m.op == OpModify ensures m in Files(rows[1..]) {
        RecordMember(g, snaps, rows[1..], m);
      }
      if Files(rows) != Files(rows[1..]) {
        assert Files(rows)[1..] == Files(rows[1..]);
      }
    }
  }

  lemma {:induction false} JoinRecords(g: FS, snaps: Snaps, a: seq<Affected>, b: seq<Affected>)
    requires Record(g, snaps, a) && Record(g, snaps, b) && PathsOf(a) !! PathsOf(b)
    ensures Record(g, snaps, a + b)
  {
    if a == [] {
      assert a + b == b;
    } else {
      assert (a + b)[1..] == a[1..] + b;
      assert PathsOf(a[1..]) <= PathsOf(a);
      assert PathsOf(a[1..] + b) == PathsOf(a[1..]) + PathsOf(b);
      assert a[0].path in PathsOf(a);
      JoinRecords(g, snaps, a[1..], b);
    }
  }

  lemma PlanRecord(g: FS, snaps: Snaps, rows: seq<Affected>)
    requires Record(g, snaps, rows)
    ensures Record(g, snaps, Plan(rows))
    ensures forall r :: r in Plan(rows) <==> r in rows && r.op != OpAbsent
  {
    DirsRecord(g, snaps, rows);
    FilesRecord(g, snaps, rows);
    forall r | r in rows ensures RowOk(g, snaps, r) { RecordMember(g, snaps, rows, r); }
    forall x, y | x in Dirs(rows) && y in Files(rows) ensures x.path != y.path {
      if x.path == y.path { SamePathSameRow(g, snaps, rows, x, y); }
    }
    JoinRecords(g, snaps, Dirs(rows), Files(rows));
  }

  /** RestoreEvent undoes every damage that its rows account for, exactly. */
  lemma RestoreEventExact(g: FS, snaps: Snaps, rows: seq<Affected>, fs: FS)
    requires WF(g) && Record(g, snaps, rows) && Damage(g, rows, fs)
    ensures RestoreEvent(snaps, fs, rows) == Outcome(g, true)
  {
    PlanRecord(g, snaps, rows);
    forall p | !SameAt(fs, g, p) ensures exists r :: r in Plan(rows) && Explains(g, fs, r, p) {
      var r :| r in rows && Explains(g, fs, r, p);
      assert r in Plan(rows);
    }
    RestoreAllExact(g, snaps, Plan(rows), fs);
  }

  // ---- what a copy that stopped in the middle leaves behind ----

  /** The moved bytes of some rename to p. */
  ghost predicate MovedTo(rows: seq<Affected>, p: Path, node: Node) {
    exists r :: r in rows && r.op == OpRename && r.target == Some(p) && r.digest.Some? && node == File(r.digest.value.of)
  }

  ghost predicate IsTarget(rows: seq<Affected>, p: Path) {
    exists r :: r in rows && r.target == Some(p)
  }

  /** A file that g has not got, at a target of a move, with other bytes than were moved there. */
  ghost predicate Left(g: FS, rows: seq<Affected>, fs: FS, p: Path) {
    p !in g && IsFile(fs, p) && IsTarget(rows, p) && !MovedTo(rows, p, fs[p])
  }

  /** fs is g, damaged in ways the rows account for, and with files left at fresh targets. */
  ghost predicate Loose(g: FS, rows: seq<Affected>, fs: FS) {
    && WF(fs)
    && forall p :: SameAt(fs, g, p) || Left(g, rows, fs, p) || exists r :: r in rows && Explains(g, fs, r, p)
  }

  /** g, with what is left in fs. */
  ghost function WithLeft(g: FS, rows: seq<Affected>, fs: FS): FS {
    g + map p | p in fs && Left(g, rows, fs, p) :: fs[p]
  }

  lemma WithLeftIs(g: FS, rows: seq<Affected>, fs: FS, p: Path)
    ensures SameAt(WithLeft(g, rows, fs), if Left(g, rows, fs, p) then fs else g, p)
  {
  }

  /** Nothing is left exactly when what is left changes nothing. */
  lemma WithLeftIff(g: FS, rows: seq<Affected>, fs: FS)
    ensures WithLeft(g, rows, fs) == g <==> forall p :: !Left(g, rows, fs, p)
  {
    forall p | Left(g, rows, fs, p) ensures WithLeft(g, rows, fs) != g { WithLeftIs(g, rows, fs, p); }
  }

  lemma WithLeftWF(g: FS, snaps: Snaps, rows: seq<Affected>, fs: FS)
    requires WF(g) && Record(g, snaps, rows) && Loose(g, rows, fs)
    ensures WF(WithLeft(g, rows, fs))
  {
    var kept := WithLeft(g, rows, fs);
    forall p, q | p in kept && Above(q, p) ensures IsDir(kept, q) {
      WithLeftIs(g, rows, fs, p);
      WithLeftIs(g, rows, fs, q);
      if Left(g, rows, fs, p) { assert IsDir(fs, q); }
    }
  }

  lemma {:induction false} RecordWithLeft(g: FS, snaps: Snaps, rows: seq<Affected>, all: seq<Affected>, fs: FS)
    requires Record(g, snaps, rows) && forall r :: r in rows ==> r in all && r.op != OpAbsent
    ensures Record(WithLeft(g, all, fs), snaps, rows)
  {
    if rows != [] {
      var r := rows[0];
      var kept := WithLeft(g, all, fs);
      WithLeftIs(g, all, fs, r.path);
      if r.target.Some? {
        WithLeftIs(g, all, fs, r.target.value);
        assert r in all;
      }
      RecordWithLeft(g, snaps, rows[1..], all, fs);
    }
  }

  lemma DamageWithLeft(g: FS, rows: seq<Affected>, fs: FS, plan: seq<Affected>)
    requires Loose(g, rows, fs) && forall r :: r in plan <==> r in rows && r.op != OpAbsent
    ensures Damage(WithLeft(g, rows, fs), plan, fs)
  {
    var kept := WithLeft(g, rows, fs);
    forall p ensures SameAt(fs, kept, p) || exists r :: r in plan && Explains(kept, fs, r, p) {
      WithLeftIs(g, rows, fs, p);
      if !SameAt(fs, g, p) && !Left(g, rows, fs, p) {
        var r :| r in rows && Explains(g, fs, r, p);
        assert r in plan && Explains(kept, fs, r, p);
      }
    }
  }

  /** RestoreEvent undoes every damage that its rows account for, and leaves exactly the
      files that were left at fresh targets. */
  lemma RestoreEventLeaves(g: FS, snaps: Snaps, rows: seq<Affected>, fs: FS)
    requires WF(g) && Record(g, snaps, rows) && Loose(g, rows, fs)
    ensures RestoreEvent(snaps, fs, rows) == Outcome(WithLeft(g, rows, fs), true)
    ensures WF(WithLeft(g, rows, fs))
  {
    PlanRecord(g, snaps, rows);
    WithLeftWF(g, snaps, rows, fs);
    RecordWithLeft(g, snaps, Plan(rows), rows, fs);
    DamageWithLeft(g, rows, fs, Plan(rows));
    RestoreAllExact(WithLeft(g, rows, fs), snaps, Plan(rows), fs);
  }

  /** What is left stays left: undoing again changes nothing. */
  lemma LeftStays(g: FS, rows: seq<Affected>, fs: FS)
    requires WF(WithLeft(g, rows, fs))
    ensures var kept := WithLeft(g, rows, fs); Loose(g, rows, kept) && WithLeft(g, rows, kept) == kept
  {
    var kept := WithLeft(g, rows, fs);
    forall p ensures Left(g, rows, kept, p) <==> Left(g, rows, fs, p)
             ensures SameAt(kept, g, p) || Left(g, rows, kept, p)
             ensures SameAt(WithLeft(g, rows, kept), kept, p)
    {
      WithLeftIs(g, rows, fs, p);
      WithLeftIs(g, rows, kept, p);
    }
    assert WithLeft(g, rows, kept).Keys == kept.Keys;
  }

  lemma {:induction false} RecordGrows(g: FS, snaps: Snaps, more: Snaps, rows: seq<Affected>)
    requires Record(g, snaps, rows) && Extends(snaps, more)
    ensures Record(g, more, rows)
  {
    if rows != [] { RecordGrows(g, snaps, more, rows[1..]); }
  }
}
