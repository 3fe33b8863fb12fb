/** The file system the history engine acts on: a finite map from absolute paths to
    nodes, and the handful of system calls the engine makes. */
module FileSystem {

  type Name = string

  /** An absolute, cleaned path, component by component. The root is []. */
  type Path = seq<Name>

  newtype Byte = x: int | 0 <= x < 256

  type Bytes = seq<Byte>

  datatype Node = Dir | File(bytes: Bytes)

  type FS = map<Path, Node>

  /** The file system after a call, and whether the call succeeded. */
  datatype Outcome = Outcome(fs: FS, ok: bool)

  function Parent(p: Path): Path {
    if p == [] then [] else p[..|p| - 1]
  }

  function Base(p: Path): Name {
    if p == [] then "/" else p[|p| - 1]
  }

  /** q is p or lies on the way from the root to p. */
  predicate Covers(q: Path, p: Path) {
    |q| <= |p| && p[..|q|] == q
  }

  /** q is a proper ancestor of p. */
  predicate Above(q: Path, p: Path) {
    |q| < |p| && p[..|q|] == q
  }

  /** The root is a directory and everything above an existing path is a directory. */
  ghost predicate WF(fs: FS) {
    && [] in fs && fs[[]].Dir?
    && forall p, q :: p in fs && Above(q, p) ==> q in fs && fs[q].Dir?
  }

  predicate IsFile(fs: FS, p: Path) {
    p in fs && fs[p].File?
  }

  predicate IsDir(fs: FS, p: Path) {
    p in fs && fs[p].Dir?
  }

  /** Both file systems say the same about p. */
  ghost predicate SameAt(a: FS, b: FS, p: Path) {
    (p in a <==> p in b) && (p in a ==> a[p] == b[p])
  }

  lemma AboveParent(q: Path, p: Path)
    requires Above(q, p)
    ensures Covers(q, Parent(p))
  {
    assert p[..|p| - 1][..|q|] == p[..|q|];
  }

  lemma CoversParent(q: Path, p: Path)
    ensures Covers(q, Parent(p)) ==> Covers(q, p)
    ensures p != [] && Covers(q, Parent(p)) ==> Above(q, p)
    ensures Covers(q, p) && q != p ==> Above(q, p) && Covers(q, Parent(p))
  {
    if p != [] && |q| < |p| {
      assert p[..|p| - 1][..|q|] == p[..|q|];
    }
  }

  lemma CoversTrans(a: Path, b: Path, c: Path)
    requires Covers(b, c)
    ensures Covers(a, b) ==> Covers(a, c)
  {
    if Covers(a, b) { assert c[..|b|][..|a|] == c[..|a|]; }
  }

  /** Of two paths on the way to p, the shorter is on the way to the other. */
  lemma OnOneWay(a: Path, b: Path, p: Path)
    requires Covers(a, p) && Covers(b, p)
    ensures if |a| <= |b| then Covers(a, b) else Above(b, a)
  {
    if |a| <= |b| { assert p[..|b|][..|a|] == p[..|a|]; } else { assert p[..|a|][..|b|] == p[..|b|]; }
  }

  /** What os.Stat reports: a node, "does not exist", or another error. The latter is
      what a path through a regular file gives. */
  datatype StatResult = Found(node: Node) | NotExist | StatError

  function Stat(fs: FS, p: Path): StatResult {
    if p in fs then Found(fs[p])
    else if ThroughFile(fs, p) then StatError
    else NotExist
  }

  predicate ThroughFile(fs: FS, p: Path) {
    p != [] && (IsFile(fs, Parent(p)) || ThroughFile(fs, Parent(p)))
  }

  /** os.MkdirAll: create p and its missing parents; fail, changing nothing, when a
      regular file is in the way. */
  function MkdirAll(fs: FS, p: Path): Outcome {
    if p in fs then Outcome(fs, fs[p].Dir?)
    else if p == [] then Outcome(fs, false)
    else
      var made := MkdirAll(fs, Parent(p));
      if made.ok then Outcome(made.fs[p := Dir], true) else Outcome(fs, false)
  }

  /** os.Remove: a regular file or an empty directory goes; anything else stays. */
  function Remove(fs: FS, p: Path): FS {
    if p in fs && p != [] && (fs[p].Dir? ==> forall q | q in fs :: !Above(p, q))
    then fs - {p}
    else fs
  }

  /** On a well-formed file system MkdirAll succeeds when no regular file is in the way,
      and then it adds exactly the missing directories. */
  lemma {:induction false} MkdirAllMakes(fs: FS, p: Path)
    requires WF(fs)
    requires forall q :: Covers(q, p) && q in fs ==> fs[q].Dir?
    ensures var made := MkdirAll(fs, p);
      && made.ok && WF(made.fs)
      && (forall q :: q in fs ==> q in made.fs && made.fs[q] == fs[q])
      && (forall q :: q in made.fs && q !in fs ==> Covers(q, p))
      && (forall q :: Covers(q, p) ==> IsDir(made.fs, q))
  {
    assert Covers(p, p);
    forall q ensures Covers(q, p) <==> q == p || Above(q, p) { CoversParent(q, p); }
    if p !in fs {
      forall q ensures Covers(q, Parent(p)) <==> Above(q, p) { CoversParent(q, p); }
      MkdirAllMakes(fs, Parent(p));
    }
  }

  /** On a well-formed file system MkdirAll succeeds exactly when no regular file is in the way. */
  lemma {:induction false} MkdirAllIff(fs: FS, p: Path)
    requires WF(fs)
    ensures MkdirAll(fs, p).ok <==> forall q :: Covers(q, p) && q in fs ==> fs[q].Dir?
  {
    if forall q :: Covers(q, p) && q in fs ==> fs[q].Dir? {
      MkdirAllMakes(fs, p);
    } else {
      var q :| Covers(q, p) && q in fs && fs[q].File?;
      if q != p {
        CoversParent(q, p);
        assert p !in fs;
        MkdirAllIff(fs, Parent(p));
      }
    }
  }

  /** Writing a file where no directory is, or removing one, keeps the tree well formed. */
  lemma WriteKeepsWF(fs: FS, p: Path, bytes: Bytes)
    requires WF(fs) && IsDir(fs, Parent(p)) && !IsDir(fs, p)
    ensures WF(fs[p := File(bytes)])
  {
    forall q | Above(q, p) ensures IsDir(fs, q) {
      CoversParent(q, p);
      AboveParent(q, p);
      if q != Parent(p) { CoversParent(q, Parent(p)); }
    }
  }

  lemma RemoveKeepsWF(fs: FS, p: Path)
    requires WF(fs)
    ensures WF(Remove(fs, p))
  {
  }

  /** Whatever the file system, MkdirAll keeps every existing node and only adds
      directories at or above p. */
  lemma {:induction false} MkdirAllKeeps(fs: FS, p: Path)
    ensures var made := MkdirAll(fs, p);
      && (forall q :: q in fs ==> q in made.fs && made.fs[q] == fs[q])
      && (forall q :: q in made.fs && q !in fs ==> Covers(q, p) && made.fs[q] == Dir)
      && (!made.ok ==> made.fs == fs)
  {
    if p !in fs && p != [] {
      MkdirAllKeeps(fs, Parent(p));
      forall q | Covers(q, Parent(p)) ensures Covers(q, p) { CoversParent(q, p); }
      assert Covers(p, p);
    }
  }
}
