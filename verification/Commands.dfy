/** The destructive commands whose effect an event records, run one system call at a time. */
module Commands {
  import opened Wrappers
  import opened Sequences
  import opened FileSystem
  import opened Snapshot
  import opened Undo

  datatype Command = Rm(targets: seq<Path>) | Mv(pairs: seq<(Path, Path)>)

  /** rows is what Before records for cmd on fs. */
  ghost predicate Recorded(cfg: Config, fs: FS, snaps: Snaps, cmd: Command, rows: seq<Affected>) {
    match cmd
    case Rm(targets) => ManyRows(cfg, fs, snaps, targets, rows)
    case Mv(pairs) => MovesRecorded(cfg, fs, snaps, pairs, rows)
  }

  ghost predicate MovesRecorded(cfg: Config, fs: FS, snaps: Snaps, pairs: seq<(Path, Path)>, rows: seq<Affected>)
    decreases |pairs|
  {
    if |pairs| == 0 then |rows| == 0
    else
      var last := |pairs| - 1;
      exists n :: 0 <= n <= |rows|
        && MovesRecorded(cfg, fs, snaps, pairs[..last], rows[..n])
        && MoveRows(cfg, fs, snaps, pairs[last].0, pairs[last].1, rows[n..])
  }

  /** Where the rows of the last pair start. */
  lemma LastMove(cfg: Config, fs: FS, snaps: Snaps, pairs: seq<(Path, Path)>, rows: seq<Affected>) returns (n: nat)
    requires pairs != [] && MovesRecorded(cfg, fs, snaps, pairs, rows)
    ensures n <= |rows| && MovesRecorded(cfg, fs, snaps, pairs[..|pairs| - 1], rows[..n])
    ensures MoveRows(cfg, fs, snaps, pairs[|pairs| - 1].0, pairs[|pairs| - 1].1, rows[n..])
  {
    var last := |pairs| - 1;
    n :| 0 <= n <= |rows|
      && MovesRecorded(cfg, fs, snaps, pairs[..last], rows[..n])
      && MoveRows(cfg, fs, snaps, pairs[last].0, pairs[last].1, rows[n..]);
  }

  lemma MoveRowsGrow(cfg: Config, fs: FS, snaps: Snaps, more: Snaps, src: Path, dst: Path, rows: seq<Affected>)
    requires MoveRows(cfg, fs, snaps, src, dst, rows) && Extends(snaps, more)
    ensures MoveRows(cfg, fs, more, src, dst, rows)
  {
  }

  lemma {:induction false} MovesGrow(cfg: Config, fs: FS, snaps: Snaps, more: Snaps, pairs: seq<(Path, Path)>, rows: seq<Affected>)
    requires MovesRecorded(cfg, fs, snaps, pairs, rows) && Extends(snaps, more)
    ensures MovesRecorded(cfg, fs, more, pairs, rows)
    decreases |pairs|
  {
    if pairs != [] {
      var last := |pairs| - 1;
      var n := LastMove(cfg, fs, snaps, pairs, rows);
      MovesGrow(cfg, fs, snaps, more, pairs[..last], rows[..n]);
      MoveRowsGrow(cfg, fs, snaps, more, pairs[last].0, pairs[last].1, rows[n..]);
    }
  }

  /** r is the row of the source of a pair, whatever became of it. */
  ghost predicate NamesPair(fs: FS, m: (Path, Path), r: Affected) {
    r.path == m.0 && r.target == Some(Resolved(fs, m.0, m.1))
  }

  ghost predicate HasNamed(fs: FS, m: (Path, Path), rows: seq<Affected>) {
    exists r :: r in rows && NamesPair(fs, m, r)
  }

  ghost predicate IsNamed(fs: FS, pairs: seq<(Path, Path)>, r: Affected) {
    exists m :: m in pairs && NamesPair(fs, m, r)
  }

  /** Every pair has a row, and the rows with a target are those of the pairs. */
  ghost predicate NamesPairs(fs: FS, pairs: seq<(Path, Path)>, rows: seq<Affected>) {
    && (forall m :: m in pairs ==> HasNamed(fs, m, rows))
    && (forall r :: r in rows && r.target.Some? ==> IsNamed(fs, pairs, r))
  }

  lemma MoveNamesPair(cfg: Config, fs: FS, snaps: Snaps, src: Path, dst: Path, rows: seq<Affected>)
    requires MoveRows(cfg, fs, snaps, src, dst, rows)
    ensures rows != [] && NamesPair(fs, (src, dst), rows[0])
    ensures forall r :: r in rows[1..] ==> r.target.None?
  {
    var n := |rows| - if IsFile(fs, Resolved(fs, src, dst)) then 1 else 0;
    assert rows[..n][0] == rows[0];
    forall r | r in rows[1..] ensures r.target.None? {
      if r !in rows[..n][1..] { assert r in rows[n..]; }
    }
  }

  lemma {:induction false} MovesNamePairs(cfg: Config, fs: FS, snaps: Snaps, pairs: seq<(Path, Path)>, rows: seq<Affected>)
    requires MovesRecorded(cfg, fs, snaps, pairs, rows)
    ensures NamesPairs(fs, pairs, rows)
    decreases |pairs|
  {
    if |pairs| > 0 {
      var last := |pairs| - 1;
      var n := LastMove(cfg, fs, snaps, pairs, rows);
      MovesNamePairs(cfg, fs, snaps, pairs[..last], rows[..n]);
      MoveNamesPair(cfg, fs, snaps, pairs[last].0, pairs[last].1, rows[n..]);
      CutAt(rows, n);
      InitAndLast(pairs);
      NamesOneMore(fs, pairs[..last], rows[..n], pairs[last], rows[n..]);
    }
  }

  lemma NamedInMore(fs: FS, m: (Path, Path), some: seq<Affected>, rows: seq<Affected>)
    requires HasNamed(fs, m, some) && forall r :: r in some ==> r in rows
    ensures HasNamed(fs, m, rows)
  {
    var r :| r in some && NamesPair(fs, m, r);
    assert r in rows;
  }

  lemma NamedByMore(fs: FS, some: seq<(Path, Path)>, pairs: seq<(Path, Path)>, r: Affected)
    requires IsNamed(fs, some, r) && forall m :: m in some ==> m in pairs
    ensures IsNamed(fs, pairs, r)
  {
    var m :| m in some && NamesPair(fs, m, r);
    assert m in pairs;
  }

  lemma NamesOneMore(fs: FS, init: seq<(Path, Path)>, some: seq<Affected>, last: (Path, Path), others: seq<Affected>)
    requires NamesPairs(fs, init, some) && others != [] && NamesPair(fs, (last.0, last.1), others[0])
    requires forall r :: r in others[1..] ==> r.target.None?
    ensures NamesPairs(fs, init + [last], some + others)
  {
    assert last == (last.0, last.1) && others == [others[0]] + others[1..];
    forall m | m in init + [last] ensures HasNamed(fs, m, some + others) {
      if m in init {
        NamedInMore(fs, m, some, some + others);
      } else {
        assert others[0] in some + others;
      }
    }
    forall r | r in some + others && r.target.Some? ensures IsNamed(fs, init + [last], r) {
      if r in some {
        NamedByMore(fs, init, init + [last], r);
      } else {
        assert r == others[0] && last in init + [last];
      }
    }
  }

  /** The events that undo promises to reverse: no skipped row, no path twice, no directory mv. */
  predicate Covered(rows: seq<Affected>) {
    && Distinct(rows)
    && forall r :: r in rows ==> r.op != OpSkipped && !(r.op == OpRename && r.dir.None?)
  }

  /** One system call of the command. It removes one file or empty directory below an rm
      target; or, for a mv pair, it renames the source to the target, writes any bytes to the
      target, as a copy does that may stop in the middle, or removes either end. A source may
      be one that an earlier stage of the pipeline has put there. */
  ghost predicate Step(fs0: FS, cmd: Command, fs: FS, fs': FS) {
    match cmd
    case Rm(targets) => exists t, p :: t in targets && Covers(t, p) && fs' == Remove(fs, p)
    case Mv(pairs) => exists m, bytes :: m in pairs && MoveStep(m.0, Resolved(fs0, m.0, m.1), bytes, fs, fs')
  }

  ghost predicate MoveStep(src: Path, target: Path, bytes: Bytes, fs: FS, fs': FS) {
    var reach := IsDir(fs, Parent(target)) && !IsDir(fs, target);
    || (IsFile(fs, src) && reach && fs' == (fs - {src})[target := fs[src]])
    || (reach && fs' == fs[target := File(bytes)])
    || (IsFile(fs, src) && fs' == fs - {src})
    || (IsFile(fs, target) && fs' == fs - {target})
  }

  /** A run of the command that may have stopped anywhere. */
  ghost predicate Run(cmd: Command, run: seq<FS>) {
    run != [] && forall i :: 0 <= i < |run| - 1 ==> Step(run[0], cmd, run[i], run[i + 1])
  }

  // ---- a covered event is a record ----

  lemma {:induction false} TreeRowsRecord(cfg: Config, fs: FS, snaps: Snaps, rows: seq<Affected>)
    requires forall r :: r in rows ==> TreeRow(cfg, fs, snaps, r)
    requires Covered(rows)
    ensures Record(fs, snaps, rows)
  {
    if rows != [] {
      forall r | r in rows[1..] ensures r in rows && r.path != rows[0].path {
        var i :| 0 <= i < |rows[1..]| && rows[1..][i] == r;
        assert rows[i + 1] == r;
      }
      assert Covered(rows[1..]);
      TreeRowsRecord(cfg, fs, snaps, rows[1..]);
      assert rows[0] in rows;
    }
  }

  lemma FirstPath(rows: seq<Affected>)
    ensures rows != [] ==> rows[0].path in PathsOf(rows)
  {
    assert rows != [] ==> rows[0] in rows;
  }

  /** r is the row of the source of a pair: moved, or absent to begin with. */
  ghost predicate SourceRow(fs: FS, m: (Path, Path), r: Affected) {
    && r.path == m.0 && r.target == Some(Resolved(fs, m.0, m.1))
    && if IsFile(fs, m.0) then r.op == OpRename && r.digest == Some(Sha256(fs[m.0].bytes))
       else r.op == OpAbsent && m.0 !in fs
  }

  ghost predicate HasSource(fs: FS, m: (Path, Path), rows: seq<Affected>) {
    exists r :: r in rows && SourceRow(fs, m, r)
  }

  ghost predicate HasOverwritten(fs: FS, m: (Path, Path), rows: seq<Affected>) {
    IsFile(fs, Resolved(fs, m.0, m.1)) ==>
      exists r :: r in rows && r.path == Resolved(fs, m.0, m.1) && r.op == OpModify
  }

  /** A row with a target is the source row of one of the pairs. */
  ghost predicate OnlySources(fs: FS, pairs: seq<(Path, Path)>, rows: seq<Affected>) {
    forall r :: r in rows && r.target.Some? ==> exists m :: m in pairs && SourceRow(fs, m, r)
  }

  /** The covered rows of one mv pair: a renamed file, with the bytes it overwrites if any;
      or, for a source that is not there, a note of that. */
  lemma PairRows(cfg: Config, fs: FS, snaps: Snaps, src: Path, dst: Path, rows: seq<Affected>)
    requires MoveRows(cfg, fs, snaps, src, dst, rows) && Covered(rows)
    ensures Record(fs, snaps, rows)
    ensures forall r :: r in rows ==> r.op != OpDelete
    ensures HasSource(fs, (src, dst), rows) && HasOverwritten(fs, (src, dst), rows)
    ensures forall r :: r in rows && r.target.Some? ==> SourceRow(fs, (src, dst), r)
  {
    var target := Resolved(fs, src, dst);
    var n := |rows| - if IsFile(fs, target) then 1 else 0;
    assert rows[..n][0] == rows[0] && rows[0] in rows;
    assert !IsDir(fs, src);
    FirstPath(rows[..n][1..]);
    assert SourceRow(fs, (src, dst), rows[0]);
    if IsFile(fs, target) {
      assert rows[n..][0] == rows[1] && rows[1] in rows;
      assert rows == [rows[0], rows[1]];
      assert rows[1..] == [rows[1]];
    } else {
      assert rows == [rows[0]];
    }
  }

  lemma CoveredPart(rows: seq<Affected>, n: nat)
    requires Covered(rows) && n <= |rows|
    ensures Covered(rows[..n]) && Covered(rows[n..])
    ensures PathsOf(rows[..n]) !! PathsOf(rows[n..])
  {
  }

  lemma {:induction false} MovesRecord(cfg: Config, fs: FS, snaps: Snaps, pairs: seq<(Path, Path)>, rows: seq<Affected>)
    requires MovesRecorded(cfg, fs, snaps, pairs, rows) && Covered(rows)
    ensures MovesHold(fs, snaps, pairs, rows)
    decreases |pairs|
  {
    if |pairs| > 0 {
      var last := |pairs| - 1;
      var n := LastMove(cfg, fs, snaps, pairs, rows);
      CoveredPart(rows, n);
      CutAt(rows, n);
      InitAndLast(pairs);
      MovesRecord(cfg, fs, snaps, pairs[..last], rows[..n]);
      OneMoreMove(cfg, fs, snaps, pairs[..last], pairs[last], rows[..n], rows[n..]);
    } else {
      assert pairs == [] && rows == [];
      NoMoves(fs, snaps);
    }
  }

  ghost predicate MovesHold(fs: FS, snaps: Snaps, pairs: seq<(Path, Path)>, rows: seq<Affected>) {
    && Record(fs, snaps, rows)
    && (forall r :: r in rows ==> r.op != OpDelete)
    && (forall m :: m in pairs ==> HasSource(fs, m, rows) && HasOverwritten(fs, m, rows))
    && OnlySources(fs, pairs, rows)
  }

  lemma NoMoves(fs: FS, snaps: Snaps)
    ensures MovesHold(fs, snaps, [], [])
  {
  }

  lemma OneMoreMove(cfg: Config, fs: FS, snaps: Snaps, init: seq<(Path, Path)>, last: (Path, Path),
                    some: seq<Affected>, others: seq<Affected>)
    requires MovesHold(fs, snaps, init, some) && Covered(others) && PathsOf(some) !! PathsOf(others)
    requires MoveRows(cfg, fs, snaps, last.0, last.1, others)
    ensures MovesHold(fs, snaps, init + [last], some + others)
  {
    PairRows(cfg, fs, snaps, last.0, last.1, others);
    JoinRecords(fs, snaps, some, others);
    PairsOfBoth(fs, init, some, last, others);
    SourcesOfBoth(fs, init, some, last, others);
  }

  lemma PairsOfBoth(fs: FS, init: seq<(Path, Path)>, some: seq<Affected>, last: (Path, Path), others: seq<Affected>)
    requires forall m :: m in init ==> HasSource(fs, m, some) && HasOverwritten(fs, m, some)
    requires HasSource(fs, (last.0, last.1), others) && HasOverwritten(fs, (last.0, last.1), others)
    ensures forall m :: m in init + [last] ==> HasSource(fs, m, some + others) && HasOverwritten(fs, m, some + others)
  {
    forall m | m in init + [last] ensures HasSource(fs, m, some + others) && HasOverwritten(fs, m, some + others) {
      if m in init {
        MoreRows(fs, m, some, some + others);
      } else {
        assert m == (last.0, last.1);
        MoreRows(fs, m, others, some + others);
      }
    }
  }

  lemma MoreRows(fs: FS, m: (Path, Path), some: seq<Affected>, rows: seq<Affected>)
    requires forall r :: r in some ==> r in rows
    requires HasSource(fs, m, some) && HasOverwritten(fs, m, some)
    ensures HasSource(fs, m, rows) && HasOverwritten(fs, m, rows)
  {
  }

  lemma SourcesOfBoth(fs: FS, init: seq<(Path, Path)>, some: seq<Affected>, last: (Path, Path), others: seq<Affected>)
    requires OnlySources(fs, init, some)
    requires forall r :: r in others && r.target.Some? ==> SourceRow(fs, (last.0, last.1), r)
    ensures OnlySources(fs, init + [last], some + others)
  {
    assert (last.0, last.1) == last && last in init + [last];
    forall r | r in some + others && r.target.Some? ensures exists m :: m in init + [last] && SourceRow(fs, m, r) {
      if r in some {
        var m :| m in init && SourceRow(fs, m, r);
        assert m in init + [last];
      } else {
        assert SourceRow(fs, last, r);
      }
    }
  }

  lemma CoveredRecord(cfg: Config, fs: FS, snaps: Snaps, cmd: Command, rows: seq<Affected>)
    requires Recorded(cfg, fs, snaps, cmd, rows) && Covered(rows)
    ensures Record(fs, snaps, rows)
  {
    match cmd
    case Rm(targets) =>
      ManyPaths(cfg, fs, snaps, targets, rows);
      TreeRowsRecord(cfg, fs, snaps, rows);
    case Mv(pairs) => MovesRecord(cfg, fs, snaps, pairs, rows);
  }

  // ---- no system call of the command goes beyond the recorded damage ----

  /** rm leaves nothing new; mv never makes or removes a directory. */
  ghost predicate Reached(fs0: FS, cmd: Command, rows: seq<Affected>, fs: FS) {
    match cmd
    case Rm(_) => Damage(fs0, rows, fs)
    case Mv(_) => Loose(fs0, rows, fs) && forall p :: IsDir(fs0, p) <==> IsDir(fs, p)
  }

  ghost predicate TreeOps(fs: FS, rows: seq<Affected>) {
    forall r :: r in rows ==> r.op != OpModify && r.op != OpRename && (r.path in fs ==> r.op != OpAbsent)
  }

  lemma TreeRowsOps(cfg: Config, fs: FS, snaps: Snaps, rows: seq<Affected>)
    requires forall r :: r in rows ==> TreeRow(cfg, fs, snaps, r)
    ensures TreeOps(fs, rows)
  {
  }

  /** Whatever rm removes was there before and has a row, or was not there before. */
  lemma RmRow(cfg: Config, fs0: FS, snaps: Snaps, cmd: Command, rows: seq<Affected>, fs: FS, fs': FS) returns (p: Path)
    requires WF(fs0) && cmd.Rm? && Recorded(cfg, fs0, snaps, cmd, rows) && Step(fs0, cmd, fs, fs')
    ensures fs' == Remove(fs, p) && (p in fs0 ==> p in PathsOf(rows))
  {
    var t, q :| t in cmd.targets && Covers(t, q) && fs' == Remove(fs, q);
    p := q;
    ManyPaths(cfg, fs0, snaps, cmd.targets, rows);
    var k :| 0 <= k < |cmd.targets| && cmd.targets[k] == t;
    if p in fs0 {
      if p != t { CoversParent(t, p); }
      InTrees(fs0, cmd.targets, k);
      assert p in TreeOf(fs0, cmd.targets[k]);
    }
  }

  lemma RmStep(cfg: Config, fs0: FS, snaps: Snaps, cmd: Command, rows: seq<Affected>, fs: FS, fs': FS)
    requires WF(fs0) && cmd.Rm? && Recorded(cfg, fs0, snaps, cmd, rows) && Covered(rows)
    requires Reached(fs0, cmd, rows, fs) && Step(fs0, cmd, fs, fs')
    ensures Reached(fs0, cmd, rows, fs')
  {
    var p := RmRow(cfg, fs0, snaps, cmd, rows, fs, fs');
    ManyPaths(cfg, fs0, snaps, cmd.targets, rows);
    TreeRowsOps(cfg, fs0, snaps, rows);
    RemovalDamage(fs0, rows, fs, p);
  }

  lemma RemovalDamage(fs0: FS, rows: seq<Affected>, fs: FS, p: Path)
    requires Damage(fs0, rows, fs) && TreeOps(fs0, rows)
    requires p in fs0 ==> p in PathsOf(rows)
    ensures Damage(fs0, rows, Remove(fs, p))
  {
    RemoveKeepsWF(fs, p);
    forall q ensures SameAt(Remove(fs, p), fs0, q) || exists r :: r in rows && Explains(fs0, Remove(fs, p), r, q) {
      RemovalExplained(fs0, rows, fs, p, q);
    }
  }

  lemma RemovalExplained(fs0: FS, rows: seq<Affected>, fs: FS, p: Path, q: Path)
    requires SameAt(fs, fs0, q) || exists r :: r in rows && Explains(fs0, fs, r, q)
    requires TreeOps(fs0, rows) && (p in fs0 ==> p in PathsOf(rows))
    ensures SameAt(Remove(fs, p), fs0, q) || exists r :: r in rows && Explains(fs0, Remove(fs, p), r, q)
  {
    var fs' := Remove(fs, p);
    if !SameAt(fs, fs0, q) {
      var r :| r in rows && Explains(fs0, fs, r, q);
      assert Explains(fs0, fs', r, q);
    } else if !SameAt(fs', fs, q) {
      assert q == p && p in fs0;
      var r :| r in rows && r.path == p;
      assert Covers(p, p);
      assert Explains(fs0, fs', r, p);
    }
  }

  ghost predicate Accounted(g: FS, rows: seq<Affected>, fs: FS, p: Path) {
    SameAt(fs, g, p) || Left(g, rows, fs, p) || exists r :: r in rows && Explains(g, fs, r, p)
  }

  /** What is accounted for at a path stays so while the path is left alone. */
  lemma StillAccounted(g: FS, rows: seq<Affected>, fs: FS, fs': FS, q: Path)
    requires SameAt(fs', fs, q) && Accounted(g, rows, fs, q)
    ensures Accounted(g, rows, fs', q)
  {
    if !SameAt(fs, g, q) && !Left(g, rows, fs, q) {
      var r :| r in rows && Explains(g, fs, r, q);
      assert Explains(g, fs', r, q);
    }
  }

  /** What a system call of mv does to either end of the move is accounted for. */
  lemma EndsAccounted(g: FS, pairs: seq<(Path, Path)>, m: (Path, Path), rows: seq<Affected>, bytes: Bytes, fs: FS, fs': FS, q: Path)
    requires m in pairs && HasSource(g, m, rows) && HasOverwritten(g, m, rows) && OnlySources(g, pairs, rows)
    requires MoveStep(m.0, Resolved(g, m.0, m.1), bytes, fs, fs')
    requires forall p :: IsDir(g, p) <==> IsDir(fs, p)
    requires !SameAt(fs', fs, q)
    ensures Accounted(g, rows, fs', q)
  {
    var target := Resolved(g, m.0, m.1);
    var source :| source in rows && SourceRow(g, m, source);
    assert q == target || (q == m.0 && q !in fs' && IsFile(fs, q));
    assert IsDir(g, q) <==> IsDir(fs, q);
    if q == target && IsFile(g, target) {
      var r :| r in rows && r.path == target && r.op == OpModify;
      OwnRowAccounted(g, rows, r, fs');
    } else if q == target && q in fs' {
      TargetAccounted(g, rows, fs', q);
    } else if q == m.0 && q in g {
      OwnRowAccounted(g, rows, source, fs');
    }
  }

  /** A path that is gone, or overwritten where a row says so, is accounted for by its own row. */
  lemma OwnRowAccounted(g: FS, rows: seq<Affected>, r: Affected, fs: FS)
    requires r in rows && r.op != OpAbsent
    requires r.path !in fs || (r.op == OpModify && IsFile(fs, r.path))
    ensures Accounted(g, rows, fs, r.path)
  {
    assert Covers(r.path, r.path);
    assert Explains(g, fs, r, r.path);
  }

  lemma TargetAccounted(g: FS, rows: seq<Affected>, fs: FS, p: Path)
    requires p !in g && IsFile(fs, p) && IsTarget(rows, p)
    ensures Accounted(g, rows, fs, p)
  {
    if MovedTo(rows, p, fs[p]) {
      var r :| r in rows && r.op == OpRename && r.target == Some(p) && r.digest.Some? && fs[p] == File(r.digest.value.of);
      assert Explains(g, fs, r, p);
    }
  }

  /** One system call of mv leaves no difference that is not accounted for. */
  lemma CallAccounted(g: FS, snaps: Snaps, pairs: seq<(Path, Path)>, m: (Path, Path), rows: seq<Affected>,
                      bytes: Bytes, fs: FS, fs': FS)
    requires MovesHold(g, snaps, pairs, rows) && m in pairs
    requires Loose(g, rows, fs) && forall p :: IsDir(g, p) <==> IsDir(fs, p)
    requires MoveStep(m.0, Resolved(g, m.0, m.1), bytes, fs, fs')
    ensures forall q :: Accounted(g, rows, fs', q)
  {
    forall q ensures Accounted(g, rows, fs', q) {
      assert Accounted(g, rows, fs, q);
      if SameAt(fs', fs, q) {
        StillAccounted(g, rows, fs, fs', q);
      } else {
        EndsAccounted(g, pairs, m, rows, bytes, fs, fs', q);
      }
    }
  }

  lemma AccountedIsLoose(g: FS, rows: seq<Affected>, fs: FS)
    requires WF(fs) && forall q :: Accounted(g, rows, fs, q)
    ensures Loose(g, rows, fs)
  {
    forall q ensures SameAt(fs, g, q) || Left(g, rows, fs, q) || exists r :: r in rows && Explains(g, fs, r, q) {
      assert Accounted(g, rows, fs, q);
    }
  }

  lemma MvStep(cfg: Config, fs0: FS, snaps: Snaps, cmd: Command, rows: seq<Affected>, fs: FS, fs': FS)
    requires WF(fs0) && cmd.Mv? && Recorded(cfg, fs0, snaps, cmd, rows) && Covered(rows)
    requires Reached(fs0, cmd, rows, fs) && Step(fs0, cmd, fs, fs')
    ensures Reached(fs0, cmd, rows, fs')
  {
    MovesRecord(cfg, fs0, snaps, cmd.pairs, rows);
    var m, bytes :| m in cmd.pairs && MoveStep(m.0, Resolved(fs0, m.0, m.1), bytes, fs, fs');
    MoveKeepsWF(m.0, Resolved(fs0, m.0, m.1), bytes, fs, fs');
    CallAccounted(fs0, snaps, cmd.pairs, m, rows, bytes, fs, fs');
    AccountedIsLoose(fs0, rows, fs');
  }

  lemma MoveKeepsWF(src: Path, target: Path, bytes: Bytes, fs: FS, fs': FS)
    requires WF(fs) && MoveStep(src, target, bytes, fs, fs')
    ensures WF(fs')
    ensures forall p :: IsDir(fs, p) <==> IsDir(fs', p)
  {
    if IsDir(fs, Parent(target)) && !IsDir(fs, target) {
      if IsFile(fs, src) { WriteKeepsWF(fs, target, fs[src].bytes); }
      WriteKeepsWF(fs, target, bytes);
    }
  }

  lemma {:induction false} RunReached(cfg: Config, snaps: Snaps, cmd: Command, rows: seq<Affected>, run: seq<FS>, n: nat)
    requires Run(cmd, run) && n < |run| && WF(run[0])
    requires Recorded(cfg, run[0], snaps, cmd, rows) && Covered(rows)
    ensures Reached(run[0], cmd, rows, run[n])
  {
    if n > 0 {
      RunReached(cfg, snaps, cmd, rows, run, n - 1);
      assert Step(run[0], cmd, run[n - 1], run[n - 1 + 1]);
      if cmd.Rm? {
        RmStep(cfg, run[0], snaps, cmd, rows, run[n - 1], run[n]);
      } else {
        MvStep(cfg, run[0], snaps, cmd, rows, run[n - 1], run[n]);
      }
    }
  }

  // ---- when nothing is left ----

  /** Every target that was not there is free, or holds just what was moved to it. */
  ghost predicate Settled(fs0: FS, cmd: Command, fs: FS) {
    cmd.Mv? ==> forall m :: m in cmd.pairs ==> SettledAt(fs0, cmd.pairs, fs, Resolved(fs0, m.0, m.1))
  }

  ghost predicate SettledAt(fs0: FS, pairs: seq<(Path, Path)>, fs: FS, target: Path) {
    target !in fs0 && target in fs ==>
      MovesHere(fs0, pairs, target, fs[target])
  }

  lemma TargetIff(fs0: FS, snaps: Snaps, pairs: seq<(Path, Path)>, rows: seq<Affected>, p: Path)
    requires MovesHold(fs0, snaps, pairs, rows)
    ensures IsTarget(rows, p) <==> exists m :: m in pairs && Resolved(fs0, m.0, m.1) == p
  {
    if m :| m in pairs && Resolved(fs0, m.0, m.1) == p {
      assert HasSource(fs0, m, rows);
    }
    if r :| r in rows && r.target == Some(p) {
      var m :| m in pairs && SourceRow(fs0, m, r);
      assert m in pairs && Resolved(fs0, m.0, m.1) == p;
    }
  }

  /** Some pair moves a file to p that has just these contents. */
  ghost predicate MovesHere(fs0: FS, pairs: seq<(Path, Path)>, p: Path, node: Node) {
    exists x :: x in pairs && Resolved(fs0, x.0, x.1) == p && IsFile(fs0, x.0) && node == fs0[x.0]
  }

  lemma MovedToHere(fs0: FS, pairs: seq<(Path, Path)>, rows: seq<Affected>, p: Path, node: Node)
    requires OnlySources(fs0, pairs, rows) && MovedTo(rows, p, node)
    ensures MovesHere(fs0, pairs, p, node)
  {
    var r :| r in rows && r.op == OpRename && r.target == Some(p) && r.digest.Some? && node == File(r.digest.value.of);
    var x :| x in pairs && SourceRow(fs0, x, r);
    assert x in pairs && Resolved(fs0, x.0, x.1) == p && IsFile(fs0, x.0) && node == fs0[x.0];
  }

  lemma HereMovedTo(fs0: FS, snaps: Snaps, pairs: seq<(Path, Path)>, rows: seq<Affected>, p: Path, node: Node)
    requires MovesHold(fs0, snaps, pairs, rows) && MovesHere(fs0, pairs, p, node)
    ensures MovedTo(rows, p, node)
  {
    var x :| x in pairs && Resolved(fs0, x.0, x.1) == p && IsFile(fs0, x.0) && node == fs0[x.0];
    assert HasSource(fs0, x, rows);
  }

  /** Nothing is left at p exactly when p is settled. */
  lemma LeftIff(fs0: FS, snaps: Snaps, pairs: seq<(Path, Path)>, rows: seq<Affected>, fs: FS, p: Path)
    requires MovesHold(fs0, snaps, pairs, rows) && (IsDir(fs, p) ==> IsDir(fs0, p))
    ensures Left(fs0, rows, fs, p) <==>
            (exists m :: m in pairs && Resolved(fs0, m.0, m.1) == p) && !SettledAt(fs0, pairs, fs, p)
  {
    TargetIff(fs0, snaps, pairs, rows, p);
    if p in fs {
      if MovedTo(rows, p, fs[p]) { MovedToHere(fs0, pairs, rows, p, fs[p]); }
      if MovesHere(fs0, pairs, p, fs[p]) { HereMovedTo(fs0, snaps, pairs, rows, p, fs[p]); }
    }
  }

  /** A reached state is settled exactly when nothing is left in it. */
  lemma SettledIff(cfg: Config, fs0: FS, snaps: Snaps, cmd: Command, rows: seq<Affected>, fs: FS)
    requires Recorded(cfg, fs0, snaps, cmd, rows) && Covered(rows) && Reached(fs0, cmd, rows, fs)
    ensures Loose(fs0, rows, fs)
    ensures Settled(fs0, cmd, fs) <==> forall p :: !Left(fs0, rows, fs, p)
  {
    match cmd {
      case Rm(targets) =>
        ManyPaths(cfg, fs0, snaps, targets, rows);
        forall p ensures !Left(fs0, rows, fs, p) { NoTarget(cfg, fs0, snaps, rows, p); }
      case Mv(pairs) =>
        MovesRecord(cfg, fs0, snaps, pairs, rows);
        forall p ensures Left(fs0, rows, fs, p) <==>
                         (exists m :: m in pairs && Resolved(fs0, m.0, m.1) == p) && !SettledAt(fs0, pairs, fs, p)
        {
          LeftIff(fs0, snaps, pairs, rows, fs, p);
        }
    }
  }

  lemma NoTarget(cfg: Config, fs: FS, snaps: Snaps, rows: seq<Affected>, p: Path)
    requires forall r :: r in rows ==> TreeRow(cfg, fs, snaps, r)
    ensures !IsTarget(rows, p)
  {
  }

  // ---- the theorems ----

  /** However far the command of a covered event got, undoing the event succeeds, whatever
      was saved since. It rebuilds exactly the files and directories from before the command
      if and only if every target that was not there is free by then or holds just what was
      moved to it. Undoing it again changes nothing. */
  lemma UndoExact(cfg: Config, snaps: Snaps, more: Snaps, cmd: Command, rows: seq<Affected>, run: seq<FS>)
    requires Run(cmd, run) && WF(run[0])
    requires Recorded(cfg, run[0], snaps, cmd, rows) && Covered(rows) && Extends(snaps, more)
    ensures var last := run[|run| - 1]; var undone := RestoreEvent(more, last, rows);
      && undone.ok
      && (undone.fs == run[0] <==> Settled(run[0], cmd, last))
      && undone.fs == WithLeft(run[0], rows, last)
      && RestoreEvent(more, undone.fs, rows) == undone
  {
    var last := run[|run| - 1];
    CoveredRecord(cfg, run[0], snaps, cmd, rows);
    RecordGrows(run[0], snaps, more, rows);
    RunReached(cfg, snaps, cmd, rows, run, |run| - 1);
    SettledIff(cfg, run[0], snaps, cmd, rows, last);
    WithLeftIff(run[0], rows, last);
    RestoreEventLeaves(run[0], more, rows, last);
    LeftStays(run[0], rows, last);
    RestoreEventLeaves(run[0], more, rows, WithLeft(run[0], rows, last));
  }

  /** rm is always undone exactly. */
  lemma RmUndoExact(cfg: Config, snaps: Snaps, more: Snaps, targets: seq<Path>, rows: seq<Affected>, run: seq<FS>)
    requires Run(Rm(targets), run) && WF(run[0])
    requires Recorded(cfg, run[0], snaps, Rm(targets), rows) && Covered(rows) && Extends(snaps, more)
    ensures RestoreEvent(more, run[|run| - 1], rows) == Outcome(run[0], true)
  {
    UndoExact(cfg, snaps, more, Rm(targets), rows, run);
  }

  // ---- runs that undo does not reverse ----

  /** The row of a file that rm removes, saved in d. */
  function RemovedRow(p: Path, d: SnapDir, bytes: Bytes): Affected {
    Affected(p, OpDelete, Some(d), NoReason, Some(Sha256(bytes)), None)
  }

  /** The row of a file moved to a free target, saved in d. */
  function MovedRow(src: Path, dst: Path, d: SnapDir, bytes: Bytes): Affected {
    Affected(src, OpRename, Some(d), NoReason, Some(Sha256(bytes)), Some(dst))
  }

  /** d holds the file at p, which the configuration does not skip. */
  ghost predicate SavedIn(cfg: Config, fs: FS, snaps: Snaps, p: Path, d: SnapDir) {
    && IsFile(fs, p) && !cfg.ignored(p) && |fs[p].bytes| <= cfg.maxBytes
    && (d, Base(p)) in snaps && snaps[(d, Base(p))] == fs[p].bytes
  }

  lemma RemovalRecorded(cfg: Config, fs: FS, snaps: Snaps, p: Path, d: SnapDir)
    requires SavedIn(cfg, fs, snaps, p, d)
    ensures var rows := [RemovedRow(p, d, fs[p].bytes)];
      Recorded(cfg, fs, snaps, Rm([p]), rows) && Covered(rows)
  {
    var row := RemovedRow(p, d, fs[p].bytes);
    assert PathsOf([row]) == {p};
    assert TreeRows(cfg, fs, snaps, p, [row]);
    assert [row][0..] == [row] && [row][..0] == [] && [p][..0] == [];
    assert ManyRows(cfg, fs, snaps, [p][..0], [row][..0]);
  }

  lemma MoveRecorded(cfg: Config, fs: FS, snaps: Snaps, src: Path, dst: Path, d: SnapDir)
    requires SavedIn(cfg, fs, snaps, src, d) && dst !in fs
    ensures var rows := [MovedRow(src, dst, d, fs[src].bytes)];
      Recorded(cfg, fs, snaps, Mv([(src, dst)]), rows) && Covered(rows)
  {
    var row := MovedRow(src, dst, d, fs[src].bytes);
    assert [row][..1] == [row] && [row][1..] == [];
    assert MoveRows(cfg, fs, snaps, src, dst, [row]);
    var pairs: seq<(Path, Path)> := [(src, dst)];
    assert pairs[..0] == [] && [row][..0] == [] && [row][0..] == [row];
    assert MovesRecorded(cfg, fs, snaps, pairs[..0], [row][..0]);
  }

  /** A copy of src to the free target dst that stops after writing part. */
  lemma CutCopyRuns(fs: FS, src: Path, dst: Path, part: Bytes)
    requires dst !in fs && IsDir(fs, Parent(dst))
    ensures Run(Mv([(src, dst)]), [fs, fs[dst := File(part)]])
  {
    var m: (Path, Path) := (src, dst);
    var after := fs[dst := File(part)];
    assert m in [m] && MoveStep(m.0, Resolved(fs, m.0, m.1), part, fs, after);
    assert Step(fs, Mv([m]), fs, after);
  }

  /** Undo after a copy that stopped in the middle succeeds, and leaves the part there. */
  lemma PartialCopyStays(cfg: Config, fs: FS, snaps: Snaps, src: Path, dst: Path, d: SnapDir, part: Bytes)
    requires WF(fs) && SavedIn(cfg, fs, snaps, src, d) && dst !in fs && IsDir(fs, Parent(dst))
    requires part != fs[src].bytes
    ensures var rows := [MovedRow(src, dst, d, fs[src].bytes)]; var after := fs[dst := File(part)];
      && Recorded(cfg, fs, snaps, Mv([(src, dst)]), rows) && Covered(rows)
      && Run(Mv([(src, dst)]), [fs, after])
      && RestoreEvent(snaps, after, rows) == Outcome(after, true)
  {
    var row := MovedRow(src, dst, d, fs[src].bytes);
    var after := fs[dst := File(part)];
    MoveRecorded(cfg, fs, snaps, src, dst, d);
    CutCopyRuns(fs, src, dst, part);
    UndoExact(cfg, snaps, snaps, Mv([(src, dst)]), [row], [fs, after]);
    PartIsLeft(fs, row, dst, part);
  }

  /** What is left of a copy to dst is the part written there. */
  lemma PartIsLeft(fs: FS, row: Affected, dst: Path, part: Bytes)
    requires dst !in fs && row.target == Some(dst) && row.digest.Some? && row.digest.value.of != part
    ensures WithLeft(fs, [row], fs[dst := File(part)]) == fs[dst := File(part)]
  {
    var after := fs[dst := File(part)];
    forall p ensures SameAt(WithLeft(fs, [row], after), after, p) {
      WithLeftIs(fs, [row], after, p);
      if p == dst { assert row in [row] && Left(fs, [row], after, p); }
    }
    assert WithLeft(fs, [row], after).Keys == after.Keys;
  }

  /** Two stages that move a file to a free path and on to another, run to their end. */
  function ChainedRun(fs: FS, first: Path, middle: Path, last: Path): seq<FS>
    requires first in fs
  {
    var once := (fs - {first})[middle := fs[first]];
    [fs, once, (once - {middle})[last := fs[first]]]
  }

  /** The row of a source that is not there. */
  function AbsentRow(src: Path, dst: Path): Affected {
    Bare(src, OpAbsent, NoReason).(target := Some(dst))
  }

  lemma {:induction false} NotThroughFile(fs: FS, p: Path)
    requires WF(fs) && IsDir(fs, p)
    ensures !ThroughFile(fs, p)
    decreases |p|
  {
    if p != [] {
      assert Above(Parent(p), p);
      NotThroughFile(fs, Parent(p));
    }
  }

  lemma ChainedRecorded(cfg: Config, fs: FS, snaps: Snaps, first: Path, middle: Path, last: Path, d: SnapDir)
    requires WF(fs) && SavedIn(cfg, fs, snaps, first, d) && middle !in fs && last !in fs && IsDir(fs, Parent(middle))
    ensures var rows := [MovedRow(first, middle, d, fs[first].bytes), AbsentRow(middle, last)];
      Recorded(cfg, fs, snaps, Mv([(first, middle), (middle, last)]), rows) && Covered(rows)
  {
    var one, two := MovedRow(first, middle, d, fs[first].bytes), AbsentRow(middle, last);
    var rows, pairs := [one, two], [(first, middle), (middle, last)];
    MoveRecorded(cfg, fs, snaps, first, middle, d);
    NotThroughFile(fs, Parent(middle));
    assert [two][..1] == [two] && [two][1..] == [];
    assert MoveRows(cfg, fs, snaps, middle, last, [two]);
    assert rows[..1] == [one] && rows[1..] == [two] && pairs[..1] == [(first, middle)];
    assert MovesRecorded(cfg, fs, snaps, pairs[..1], rows[..1]);
  }

  lemma ChainedRuns(fs: FS, first: Path, middle: Path, last: Path)
    requires WF(fs) && IsFile(fs, first) && middle !in fs && last !in fs && middle != last
    requires IsDir(fs, Parent(middle)) && IsDir(fs, Parent(last))
    ensures Run(Mv([(first, middle), (middle, last)]), ChainedRun(fs, first, middle, last))
    ensures ChainedRun(fs, first, middle, last)[2] == (fs - {first})[last := fs[first]]
  {
    var pairs := [(first, middle), (middle, last)];
    var run := ChainedRun(fs, first, middle, last);
    var one, two, bytes: Bytes := pairs[0], pairs[1], [];
    assert one in pairs && MoveStep(one.0, Resolved(fs, one.0, one.1), bytes, fs, run[1]);
    assert two in pairs && MoveStep(two.0, Resolved(fs, two.0, two.1), bytes, run[1], run[2]);
    assert Step(fs, Mv(pairs), run[0], run[1]);
    assert Step(fs, Mv(pairs), run[1], run[2]);
  }

  /** A file moved on by a later stage of the same pipeline: its last target was free, and its
      source was not there when the event was recorded. The event is covered, and undoing it
      succeeds and brings the file back, but the moved copy stays where it is. */
  lemma ChainedMoveStays(cfg: Config, fs: FS, snaps: Snaps, first: Path, middle: Path, last: Path, d: SnapDir)
    requires WF(fs) && SavedIn(cfg, fs, snaps, first, d) && middle !in fs && last !in fs && middle != last
    requires IsDir(fs, Parent(middle)) && IsDir(fs, Parent(last))
    ensures var cmd := Mv([(first, middle), (middle, last)]);
      var rows := [MovedRow(first, middle, d, fs[first].bytes), AbsentRow(middle, last)];
      var run := ChainedRun(fs, first, middle, last);
      && Recorded(cfg, fs, snaps, cmd, rows) && Covered(rows) && Run(cmd, run)
      && RestoreEvent(snaps, run[2], rows) == Outcome(fs[last := fs[first]], true)
  {
    var cmd := Mv([(first, middle), (middle, last)]);
    var rows := [MovedRow(first, middle, d, fs[first].bytes), AbsentRow(middle, last)];
    var run := ChainedRun(fs, first, middle, last);
    ChainedRecorded(cfg, fs, snaps, first, middle, last, d);
    ChainedRuns(fs, first, middle, last);
    UndoExact(cfg, snaps, snaps, cmd, rows, run);
    ChainedLeft(fs, first, middle, last, rows, run[2]);
  }

  lemma ChainedLeft(fs: FS, first: Path, middle: Path, last: Path, rows: seq<Affected>, after: FS)
    requires IsFile(fs, first) && middle !in fs && last !in fs && middle != last
    requires after == (fs - {first})[last := fs[first]]
    requires |rows| == 2 && rows[0].target == Some(middle) && rows[1] == AbsentRow(middle, last)
    ensures WithLeft(fs, rows, after) == fs[last := fs[first]]
  {
    var goal := fs[last := fs[first]];
    assert rows[1] in rows;
    forall p ensures SameAt(WithLeft(fs, rows, after), goal, p) {
      WithLeftIs(fs, rows, after, p);
      assert Left(fs, rows, after, p) <==> p == last;
    }
    assert WithLeft(fs, rows, after).Keys == goal.Keys;
  }
}
