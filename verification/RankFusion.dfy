/** Reciprocal rank fusion of the keyword and the vector hits, over exact reals. */
module RankFusion {
  import opened Wrappers

  type Id = string

  predicate NoDup(s: seq<Id>) {
    forall i, j :: 0 <= i < j < |s| ==> s[i] != s[j]
  }

  /** The position of an id; the length of the list when it is absent. */
  function Index(list: seq<Id>, id: Id): (n: nat)
    ensures n <= |list|
    ensures n < |list| <==> id in list
    ensures n < |list| ==> list[n] == id
  {
    if list == [] then 0
    else if list[0] == id then 0
    else 1 + Index(list[1..], id)
  }

  /** What one list adds to an id's score: 1/(k + rank) for every place the id has in it. */
  function ScoreIn(list: seq<Id>, id: Id, k: nat): real {
    if list == [] then 0.0
    else
      var n := |list| - 1;
      ScoreIn(list[..n], id, k) + if list[n] == id then 1.0 / (k + n + 1) as real else 0.0
  }

  function Score(fts: seq<Id>, vec: seq<Id>, k: nat, id: Id): real {
    ScoreIn(fts, id, k) + ScoreIn(vec, id, k)
  }

  /** The comparator: higher score first, ties by first appearance. */
  predicate Before(fts: seq<Id>, vec: seq<Id>, k: nat, a: Id, b: Id) {
    || Score(fts, vec, k, a) > Score(fts, vec, k, b)
    || (Score(fts, vec, k, a) == Score(fts, vec, k, b) && Index(fts + vec, a) < Index(fts + vec, b))
  }

  /** ids is the fusion: every id of either list once, in the order of the comparator. */
  ghost predicate Fused(fts: seq<Id>, vec: seq<Id>, k: nat, ids: seq<Id>) {
    && NoDup(ids)
    && (forall id :: id in ids <==> id in fts || id in vec)
    && (forall i, j :: 0 <= i < j < |ids| ==> Before(fts, vec, k, ids[i], ids[j]))
  }

  lemma {:induction false} IndexAppend(list: seq<Id>, more: seq<Id>, id: Id)
    ensures Index(list + more, id) == if id in list then Index(list, id) else |list| + Index(more, id)
  {
    if list == [] {
      assert list + more == more;
    } else {
      assert (list + more)[1..] == list[1..] + more;
      IndexAppend(list[1..], more, id);
    }
  }

  lemma {:induction false} ScoreInAbsent(list: seq<Id>, id: Id, k: nat)
    requires id !in list
    ensures ScoreIn(list, id, k) == 0.0
  {
    if list != [] {
      assert list[|list| - 1] in list;
      ScoreInAbsent(list[..|list| - 1], id, k);
    }
  }

  /** In a list without repetition an id scores for its one place. */
  lemma {:induction false} ScoreInPlace(list: seq<Id>, id: Id, k: nat)
    requires NoDup(list)
    ensures ScoreIn(list, id, k) == if id in list then 1.0 / (k + Index(list, id) + 1) as real else 0.0
  {
    if list != [] {
      var n := |list| - 1;
      var init := list[..n];
      assert list == init + [list[n]];
      IndexAppend(init, [list[n]], id);
      if list[n] == id {
        assert id !in init;
        ScoreInAbsent(init, id, k);
      } else {
        ScoreInPlace(init, id, k);
      }
    }
  }

  // ---- the method ----

  /** What the two add passes have established about a prefix of fts + vec. */
  ghost predicate Seen(scores: map<Id, real>, firstSeen: map<Id, nat>, order: nat, seen: seq<Id>) {
    && (forall id :: id in firstSeen <==> id in seen)
    && scores.Keys == firstSeen.Keys
    && (forall id :: id in firstSeen ==> firstSeen[id] < order)
    && (forall a, b :: a in firstSeen && b in firstSeen ==> (firstSeen[a] < firstSeen[b] <==> Index(seen, a) < Index(seen, b)))
  }

  lemma SeenStep(scores: map<Id, real>, firstSeen: map<Id, nat>, order: nat, seen: seq<Id>, id: Id, score: real)
    requires Seen(scores, firstSeen, order, seen)
    ensures id in firstSeen ==> Seen(scores[id := score], firstSeen, order, seen + [id])
    ensures id !in firstSeen ==> Seen(scores[id := score], firstSeen[id := order], order + 1, seen + [id])
  {
    forall x ensures Index(seen + [id], x) == if x in seen then Index(seen, x) else |seen| + Index([id], x) {
      IndexAppend(seen, [id], x);
    }
  }

  /** One add pass over a list, after the lists in seen. */
  method Add(scores0: map<Id, real>, firstSeen0: map<Id, nat>, order0: nat, ghost seen: seq<Id>, list: seq<Id>, k: nat)
    returns (scores: map<Id, real>, firstSeen: map<Id, nat>, order: nat)
    requires Seen(scores0, firstSeen0, order0, seen)
    ensures Seen(scores, firstSeen, order, seen + list)
    ensures forall id :: id in scores ==>
              scores[id] == (if id in scores0 then scores0[id] else 0.0) + ScoreIn(list, id, k)
  {
    scores, firstSeen, order := scores0, firstSeen0, order0;
    assert seen + list[..0] == seen;
    for i := 0 to |list|
      invariant Seen(scores, firstSeen, order, seen + list[..i])
      invariant forall id :: id in scores ==>
                  scores[id] == (if id in scores0 then scores0[id] else 0.0) + ScoreIn(list[..i], id, k)
      invariant forall id :: id in scores0 ==> id in scores
    {
      var id := list[i];
      ghost var before := seen + list[..i];
      assert seen + list[..i + 1] == before + [id];
      assert list[..i + 1][..i] == list[..i];
      if id !in scores { ScoreInAbsent(list[..i], id, k); }
      var score := (if id in scores then scores[id] else 0.0) + 1.0 / (k + i + 1) as real;
      SeenStep(scores, firstSeen, order, before, id, score);
      scores := scores[id := score];
      if id !in firstSeen {
        firstSeen := firstSeen[id := order];
        order := order + 1;
      }
    }
    assert list[..|list|] == list;
  }

  /** One step of sort.Slice, rendered as insertion into the sorted part. */
  method Insert(ids: seq<Id>, id: Id, scores: map<Id, real>, firstSeen: map<Id, nat>) returns (out: seq<Id>)
    requires forall x :: x in ids ==> x in scores && x in firstSeen
    requires id in scores && id in firstSeen && id !in ids
    requires forall x :: x in ids ==> firstSeen[x] != firstSeen[id]
    requires forall i, j :: 0 <= i < j < |ids| ==> Less(scores, firstSeen, ids[i], ids[j])
    ensures forall x :: x in out <==> x in ids || x == id
    ensures forall i, j :: 0 <= i < j < |out| ==> Less(scores, firstSeen, out[i], out[j])
  {
    var n := |ids|;
    while n > 0 && !Less(scores, firstSeen, ids[n - 1], id)
      invariant 0 <= n <= |ids|
      invariant forall i :: n <= i < |ids| ==> Less(scores, firstSeen, id, ids[i])
    {
      assert ids[n - 1] in ids;
      n := n - 1;
    }
    out := ids[..n] + [id] + ids[n..];
    assert forall x :: x in ids <==> x in ids[..n] || x in ids[n..] by { assert ids == ids[..n] + ids[n..]; }
    if n > 0 {
      forall i | 0 <= i < n ensures Less(scores, firstSeen, ids[i], id) {
        assert ids[i] in ids && ids[n - 1] in ids;
        if i < n - 1 { assert Less(scores, firstSeen, ids[i], ids[n - 1]); }
      }
    }
  }

  predicate Less(scores: map<Id, real>, firstSeen: map<Id, nat>, a: Id, b: Id) {
    && a in scores && b in scores && a in firstSeen && b in firstSeen
    && (scores[a] > scores[b] || (scores[a] == scores[b] && firstSeen[a] < firstSeen[b]))
  }

  method ReciprocalRankFusion(fts: seq<Id>, vec: seq<Id>, k: nat) returns (ids: seq<Id>)
    ensures Fused(fts, vec, k, ids)
  {
    var scores, firstSeen, order := Add(map[], map[], 0, [], fts, k);
    assert [] + fts == fts;
    ghost var ftsScores := scores;
    scores, firstSeen, order := Add(scores, firstSeen, order, fts, vec, k);
    forall id | id in scores ensures scores[id] == Score(fts, vec, k, id) {
      if id !in ftsScores { ScoreInAbsent(fts, id, k); }
    }
    forall a, b | a in scores && b in scores && a != b ensures firstSeen[a] != firstSeen[b] {
      assert (fts + vec)[Index(fts + vec, a)] == a && (fts + vec)[Index(fts + vec, b)] == b;
    }
    ids := [];
    var todo := scores.Keys;
    while todo != {}
      invariant todo <= scores.Keys
      invariant forall x :: x in ids <==> x in scores && x !in todo
      invariant forall i, j :: 0 <= i < j < |ids| ==> Less(scores, firstSeen, ids[i], ids[j])
      decreases todo
    {
      var id :| id in todo;
      todo := todo - {id};
      ids := Insert(ids, id, scores, firstSeen);
    }
    forall i, j | 0 <= i < j < |ids| ensures ids[i] != ids[j] && Before(fts, vec, k, ids[i], ids[j]) {
      assert Less(scores, firstSeen, ids[i], ids[j]);
    }
  }

  // ---- the fusion is determined ----

  lemma BeforeIsStrict(fts: seq<Id>, vec: seq<Id>, k: nat, a: Id, b: Id)
    requires Before(fts, vec, k, a, b)
    ensures !Before(fts, vec, k, b, a) && a != b
  {
  }

  lemma FirstIn(x: seq<Id>)
    ensures x != [] ==> x[0] in x
  {
  }

  lemma RestOf(x: seq<Id>)
    requires x != [] && NoDup(x)
    ensures NoDup(x[1..]) && forall id :: id in x[1..] <==> id in x && id != x[0]
  {
    assert x == [x[0]] + x[1..];
    assert forall i :: 0 <= i < |x[1..]| ==> x[1..][i] == x[i + 1];
  }

  /** There is only one fusion of two lists. */
  lemma {:induction false} FusionUnique(fts: seq<Id>, vec: seq<Id>, k: nat, x: seq<Id>, y: seq<Id>)
    requires NoDup(x) && NoDup(y) && forall id :: id in x <==> id in y
    requires forall i, j :: 0 <= i < j < |x| ==> Before(fts, vec, k, x[i], x[j])
    requires forall i, j :: 0 <= i < j < |y| ==> Before(fts, vec, k, y[i], y[j])
    ensures x == y
    decreases |x|
  {
    if x == [] || y == [] {
      FirstIn(x);
      FirstIn(y);
    } else {
      assert x[0] in y && y[0] in x;
      var i, j := Index(y, x[0]), Index(x, y[0]);
      assert y[i] == x[0] && x[j] == y[0];
      assert x[0] == y[0];
      RestOf(x);
      RestOf(y);
      FusionUnique(fts, vec, k, x[1..], y[1..]);
    }
  }

  lemma Reciprocal(a: nat, b: nat)
    requires a < b
    ensures 1.0 / (a + 1) as real > 1.0 / (b + 1) as real > 0.0
  {
    var x, y := (a + 1) as real, (b + 1) as real;
    assert 1.0 / x * x == 1.0 && 1.0 / y * y == 1.0;
    assert 1.0 / x - 1.0 / y == (y - x) / (x * y);
  }

  /** Fusing with an empty list returns the other list unchanged. */
  lemma FuseWithEmpty(list: seq<Id>, k: nat, ids: seq<Id>)
    requires NoDup(list)
    ensures Fused(list, [], k, ids) ==> ids == list
    ensures Fused([], list, k, ids) ==> ids == list
  {
    forall i, j | 0 <= i < j < |list|
      ensures Before(list, [], k, list[i], list[j]) && Before([], list, k, list[i], list[j])
    {
      assert Index(list, list[i]) == i && Index(list, list[j]) == j;
      ScoreInPlace(list, list[i], k);
      ScoreInPlace(list, list[j], k);
      Reciprocal(k + i, k + j);
    }
    if Fused(list, [], k, ids) { FusionUnique(list, [], k, ids, list); }
    if Fused([], list, k, ids) { FusionUnique([], list, k, ids, list); }
  }

  // ---- Pareto ----

  lemma BetterPlace(list: seq<Id>, k: nat, a: Id, b: Id)
    requires NoDup(list) && Index(list, a) <= Index(list, b)
    ensures ScoreIn(list, a, k) >= ScoreIn(list, b, k)
    ensures Index(list, a) < Index(list, b) ==> ScoreIn(list, a, k) > ScoreIn(list, b, k)
  {
    ScoreInPlace(list, a, k);
    ScoreInPlace(list, b, k);
    var i, j := Index(list, a), Index(list, b);
    if i < j { Reciprocal(k + i, k + j); }
  }

  /** An id ranked no worse than another in each list, where absence counts as last, and
      better in one, comes first. */
  lemma Pareto(fts: seq<Id>, vec: seq<Id>, k: nat, ids: seq<Id>, a: Id, b: Id)
    requires NoDup(fts) && NoDup(vec) && Fused(fts, vec, k, ids) && b in ids
    requires Index(fts, a) <= Index(fts, b) && Index(vec, a) <= Index(vec, b)
    requires Index(fts, a) < Index(fts, b) || Index(vec, a) < Index(vec, b)
    ensures a in ids && Index(ids, a) < Index(ids, b)
  {
    BetterPlace(fts, k, a, b);
    BetterPlace(vec, k, a, b);
    Precedes(fts, vec, k, ids, a, b);
  }

  lemma Precedes(fts: seq<Id>, vec: seq<Id>, k: nat, ids: seq<Id>, a: Id, b: Id)
    requires Fused(fts, vec, k, ids) && a in ids && b in ids && Before(fts, vec, k, a, b)
    ensures Index(ids, a) < Index(ids, b)
  {
    BeforeIsStrict(fts, vec, k, a, b);
    var i, j := Index(ids, a), Index(ids, b);
    assert ids[i] == a && ids[j] == b;
  }

  // ---- dominance ----

  predicate InBoth(fts: seq<Id>, vec: seq<Id>, id: Id) {
    id in fts && id in vec
  }

  predicate InOne(fts: seq<Id>, vec: seq<Id>, id: Id) {
    (id in fts) != (id in vec)
  }

  lemma ReciprocalLeast(k: nat, i: nat)
    requires i <= k
    ensures 1.0 / (k + i + 1) as real >= 1.0 / (2 * k + 1) as real
  {
    if i < k { Reciprocal(k + i, 2 * k); }
  }

  lemma TwiceBeatsOnce(k: nat)
    ensures 1.0 / (2 * k + 1) as real + 1.0 / (2 * k + 1) as real > 1.0 / (k + 1) as real
    ensures 1.0 / (2 * k + 2) as real + 1.0 / (2 * k + 2) as real == 1.0 / (k + 1) as real
  {
    var x, y := (2 * k + 1) as real, (2 * k + 2) as real;
    Reciprocal(2 * k, 2 * k + 1);
    assert 1.0 / (k + 1) as real == 2.0 / y;
    assert 1.0 / y + 1.0 / y == 2.0 / y;
  }

  /** The most an id in one list can score, and the least an id in both. */
  lemma SingleScore(fts: seq<Id>, vec: seq<Id>, k: nat, b: Id)
    requires NoDup(fts) && NoDup(vec) && InOne(fts, vec, b)
    ensures Score(fts, vec, k, b) <= 1.0 / (k + 1) as real
  {
    ScoreInPlace(fts, b, k);
    ScoreInPlace(vec, b, k);
    var i := if b in fts then Index(fts, b) else Index(vec, b);
    if i > 0 { Reciprocal(k, k + i); }
  }

  /** In lists shorter than k + 2, every id found by both searches comes before every id
      found by only one. */
  lemma Dominance(fts: seq<Id>, vec: seq<Id>, k: nat, ids: seq<Id>, a: Id, b: Id)
    requires NoDup(fts) && NoDup(vec) && |fts| < k + 2 && |vec| < k + 2
    requires Fused(fts, vec, k, ids) && InBoth(fts, vec, a) && InOne(fts, vec, b)
    ensures Index(ids, a) < Index(ids, b)
  {
    ScoreInPlace(fts, a, k);
    ScoreInPlace(vec, a, k);
    ReciprocalLeast(k, Index(fts, a));
    ReciprocalLeast(k, Index(vec, a));
    SingleScore(fts, vec, k, b);
    TwiceBeatsOnce(k);
    Precedes(fts, vec, k, ids, a, b);
  }

  /** A filler id of length n + 2. */
  function Mark(n: nat): (id: Id)
    ensures |id| == n + 2
  {
    seq(n + 2, _ => 'x')
  }

  function Fillers(n: nat, from: nat): (list: seq<Id>)
    ensures |list| == n
    ensures forall i :: 0 <= i < n ==> |list[i]| == from + i + 2
  {
    if n == 0 then [] else Fillers(n - 1, from) + [Mark(from + n - 1)]
  }

  /** b first, then k fillers, then a last, at rank k + 2. */
  function TightFts(k: nat): seq<Id> {
    ["b"] + Fillers(k, 0) + ["a"]
  }

  function TightVec(k: nat): seq<Id> {
    Fillers(k + 1, k) + ["a"]
  }

  lemma PlaceOf(list: seq<Id>, n: nat)
    requires NoDup(list) && n < |list|
    ensures Index(list, list[n]) == n
  {
  }

  lemma TightLists(k: nat)
    ensures var fts, vec := TightFts(k), TightVec(k);
      && |fts| == k + 2 && |vec| == k + 2 && NoDup(fts) && NoDup(vec)
      && Index(fts, "a") == k + 1 && Index(vec, "a") == k + 1 && Index(fts, "b") == 0 && "b" !in vec
  {
    var fts, vec := TightFts(k), TightVec(k);
    assert "a"[0] != "b"[0];
    forall i | 0 <= i < |fts| ensures |fts[i]| == if i == 0 || i == k + 1 then 1 else i + 1 { }
    forall i | 0 <= i < |vec| ensures |vec[i]| == if i == k + 1 then 1 else k + i + 2 { }
    assert fts[0] == "b" && fts[k + 1] == "a" && vec[k + 1] == "a";
    PlaceOf(fts, k + 1);
    PlaceOf(fts, 0);
    PlaceOf(vec, k + 1);
  }

  /** Every pair of repetition-free lists up to n long puts the ids of both first. */
  ghost predicate AlwaysDominates(k: nat, n: nat) {
    forall fts, vec, a, b :: Contest(fts, vec, n, a, b) ==> Before(fts, vec, k, a, b)
  }

  predicate Contest(fts: seq<Id>, vec: seq<Id>, n: nat, a: Id, b: Id) {
    NoDup(fts) && NoDup(vec) && |fts| <= n && |vec| <= n && InBoth(fts, vec, a) && InOne(fts, vec, b)
  }

  lemma DoubleScore(fts: seq<Id>, vec: seq<Id>, k: nat, a: Id)
    requires NoDup(fts) && NoDup(vec) && |fts| < k + 2 && |vec| < k + 2 && InBoth(fts, vec, a)
    ensures Score(fts, vec, k, a) > 1.0 / (k + 1) as real
  {
    ScoreInPlace(fts, a, k);
    ScoreInPlace(vec, a, k);
    ReciprocalLeast(k, Index(fts, a));
    ReciprocalLeast(k, Index(vec, a));
    TwiceBeatsOnce(k);
  }

  lemma TightScores(k: nat)
    ensures Score(TightFts(k), TightVec(k), k, "a") == Score(TightFts(k), TightVec(k), k, "b")
  {
    var fts, vec := TightFts(k), TightVec(k);
    TightLists(k);
    ScoreInPlace(fts, "a", k);
    ScoreInPlace(vec, "a", k);
    ScoreInPlace(fts, "b", k);
    ScoreInPlace(vec, "b", k);
    TwiceBeatsOnce(k);
  }

  /** With lists of k + 2 ids, an id in one list can tie with an id in both and win the tie. */
  lemma TightTie(k: nat)
    ensures Contest(TightFts(k), TightVec(k), k + 2, "a", "b")
    ensures !Before(TightFts(k), TightVec(k), k, "a", "b")
  {
    var fts, vec := TightFts(k), TightVec(k);
    TightLists(k);
    TightScores(k);
    IndexAppend(fts, vec, "a");
    IndexAppend(fts, vec, "b");
  }

  /** The bound is tight: dominance holds for lists up to n long if and only if n < k + 2. */
  lemma DominanceIff(k: nat, n: nat)
    ensures AlwaysDominates(k, n) <==> n < k + 2
  {
    if n < k + 2 {
      forall fts, vec, a, b | Contest(fts, vec, n, a, b) ensures Before(fts, vec, k, a, b) {
        DoubleScore(fts, vec, k, a);
        SingleScore(fts, vec, k, b);
      }
    } else {
      TightTie(k);
      assert Contest(TightFts(k), TightVec(k), n, "a", "b");
    }
  }

  // ---- truncation ----

  lemma {:induction false} NoDupFits(some: seq<Id>, list: seq<Id>)
    requires NoDup(some) && forall id :: id in some ==> id in list
    ensures |some| <= |list|
    decreases |some|
  {
    if some != [] {
      var n := Index(list, some[0]);
      assert some[0] in list;
      var rest := list[..n] + list[n + 1..];
      assert list == list[..n] + [list[n]] + list[n + 1..];
      RestOf(some);
      assert forall id :: id in list ==> id == list[n] || id in rest;
      NoDupFits(some[1..], rest);
    }
  }

  /** Cutting the fusion at a limit that either list respects, below k + 2, keeps every id
      that both searches found. */
  lemma TruncationKeepsBoth(fts: seq<Id>, vec: seq<Id>, k: nat, ids: seq<Id>, limit: nat, a: Id)
    requires NoDup(fts) && NoDup(vec) && |fts| <= limit && |vec| <= limit < k + 2
    requires Fused(fts, vec, k, ids) && InBoth(fts, vec, a)
    ensures a in (if |ids| > limit then ids[..limit] else ids)
  {
    var n := Index(ids, a);
    forall i | 0 <= i <= n ensures ids[i] in fts {
      PlaceOf(ids, i);
      if !InBoth(fts, vec, ids[i]) {
        Dominance(fts, vec, k, ids, a, ids[i]);
      }
    }
    NoDupFits(ids[..n + 1], fts);
  }

  /** The events of a list that still exist, in its order. */
  function Kept(ids: seq<Id>, live: set<Id>): seq<Id> {
    if |ids| == 0 then []
    else Kept(ids[..|ids| - 1], live) + if ids[|ids| - 1] in live then [ids[|ids| - 1]] else []
  }

  lemma {:induction false} KeptMembers(ids: seq<Id>, live: set<Id>)
    ensures forall id :: id in Kept(ids, live) <==> id in ids && id in live
  {
    if |ids| > 0 {
      KeptMembers(ids[..|ids| - 1], live);
      assert ids == ids[..|ids| - 1] + [ids[|ids| - 1]];
    }
  }

  /** In a list without repeats, one id stands before another. */
  predicate InOrder(ids: seq<Id>, out: seq<Id>) {
    forall i, j :: 0 <= i < j < |out| ==> Index(ids, out[i]) < Index(ids, out[j])
  }

  lemma {:induction false} KeptOrder(ids: seq<Id>, live: set<Id>)
    requires NoDup(ids)
    ensures InOrder(ids, Kept(ids, live))
  {
    if |ids| > 0 {
      var n := |ids| - 1;
      var init, out := ids[..n], Kept(ids, live);
      KeptOrder(init, live);
      KeptMembers(init, live);
      assert ids == init + [ids[n]];
      forall i | 0 <= i < |Kept(init, live)| ensures Index(ids, out[i]) == Index(init, out[i]) < n {
        assert out[i] == Kept(init, live)[i] && out[i] in Kept(init, live);
        IndexAppend(init, [ids[n]], out[i]);
      }
      PlaceOf(ids, n);
    }
  }

  /** What the event table keeps of a list: its members that are live, in its order. */
  ghost predicate LivePart(ids: seq<Id>, live: set<Id>, out: seq<Id>) {
    && (forall id :: id in out <==> id in ids && id in live)
    && (NoDup(ids) ==> InOrder(ids, out))
  }

  lemma KeptIsLivePart(ids: seq<Id>, live: set<Id>)
    ensures LivePart(ids, live, Kept(ids, live))
  {
    KeptMembers(ids, live);
    if NoDup(ids) { KeptOrder(ids, live); }
  }

  function Limited(requested: int): nat {
    if requested <= 0 then 50 else requested
  }

  function Cut(ids: seq<Id>, limit: nat): seq<Id> {
    if |ids| > limit then ids[..limit] else ids
  }

  // ---- the answer, from the two lists alone ----

  /** The answer: live ids of the lists, once each, best first, no more than the limit. A live
      id is missing only when as many other ids come before it. */
  ghost predicate BestFirst(fts: seq<Id>, vec: seq<Id>, limit: nat, live: set<Id>, out: seq<Id>) {
    && |out| <= limit && NoDup(out)
    && (forall id :: id in out ==> id in live && (id in fts || id in vec))
    && (forall i, j :: 0 <= i < j < |out| ==> Before(fts, vec, 60, out[i], out[j]))
    && (forall id :: id in live && (id in fts || id in vec) && id !in out ==> Crowded(fts, vec, limit, out, id))
  }

  /** As many ids as the limit come before id, those of the answer among them. */
  ghost predicate Crowded(fts: seq<Id>, vec: seq<Id>, limit: nat, out: seq<Id>, id: Id) {
    exists cut :: CrowdedBy(fts, vec, limit, out, id, cut)
  }

  ghost predicate CrowdedBy(fts: seq<Id>, vec: seq<Id>, limit: nat, out: seq<Id>, id: Id, cut: seq<Id>) {
    && |cut| == limit && NoDup(cut)
    && (forall x :: x in cut ==> (x in fts || x in vec) && Before(fts, vec, 60, x, id))
    && (forall x :: x in out ==> x in cut)
  }

  lemma OrderedInFusion(fts: seq<Id>, vec: seq<Id>, ids: seq<Id>, cut: seq<Id>, out: seq<Id>)
    requires Fused(fts, vec, 60, ids) && cut <= ids && InOrder(cut, out) && forall x :: x in out ==> x in cut
    ensures NoDup(out) && forall i, j :: 0 <= i < j < |out| ==> Before(fts, vec, 60, out[i], out[j])
  {
    forall i, j | 0 <= i < j < |out| ensures out[i] != out[j] && Before(fts, vec, 60, out[i], out[j]) {
      assert out[i] in out && out[j] in out;
      var m, n := Index(cut, out[i]), Index(cut, out[j]);
      assert ids[m] == cut[m] == out[i] && ids[n] == cut[n] == out[j];
    }
  }

  lemma LeftOutIsCrowded(fts: seq<Id>, vec: seq<Id>, ids: seq<Id>, limit: nat, out: seq<Id>, id: Id)
    requires Fused(fts, vec, 60, ids) && |ids| > limit && id in ids && id !in ids[..limit]
    requires forall x :: x in out ==> x in ids[..limit]
    ensures Crowded(fts, vec, limit, out, id)
  {
    var cut, n := ids[..limit], Index(ids, id);
    forall m | 0 <= m < limit ensures ids[m] != id { assert cut[m] == ids[m] && cut[m] in cut; }
    forall x | x in cut ensures (x in fts || x in vec) && Before(fts, vec, 60, x, id) {
      var i :| 0 <= i < limit && cut[i] == x;
      assert ids[i] == x && x in ids;
    }
    assert CrowdedBy(fts, vec, limit, out, id, cut);
  }

  /** The live part of the cut fusion is the answer. */
  lemma CutIsBestFirst(fts: seq<Id>, vec: seq<Id>, ids: seq<Id>, limit: nat, live: set<Id>, out: seq<Id>)
    requires Fused(fts, vec, 60, ids) && LivePart(Cut(ids, limit), live, out)
    ensures BestFirst(fts, vec, limit, live, out)
  {
    var cut := Cut(ids, limit);
    assert forall x :: x in cut ==> x in ids;
    assert NoDup(cut);
    OrderedInFusion(fts, vec, ids, cut, out);
    NoDupFits(out, cut);
    forall id | id in live && (id in fts || id in vec) && id !in out ensures Crowded(fts, vec, limit, out, id) {
      assert id in ids && id !in cut;
      LeftOutIsCrowded(fts, vec, ids, limit, out, id);
    }
  }

  /** HybridSearch, given what the keyword search, the vector search and the event table say.
      An empty query and a failing keyword search are errors; a failing semantic search is not.
      Without a semantic answer it is the keyword result; ids of purged events drop out. */
  method HybridSearch(query: string, keyword: Option<seq<Id>>, semantic: Option<seq<Id>>, requested: int, live: set<Id>)
    returns (out: Option<seq<Id>>)
    requires keyword.Some? ==> NoDup(keyword.value) && |keyword.value| <= Limited(requested)
    requires semantic.Some? ==> NoDup(semantic.value) && |semantic.value| <= Limited(requested)
    ensures out.None? <==> query == "" || keyword.None?
    ensures out.Some? && semantic.None? ==> out == keyword
    ensures out.Some? && semantic.Some? ==>
              BestFirst(keyword.value, semantic.value, if requested <= 0 then 50 else requested, live, out.value)
    ensures out.Some? && semantic.Some? && requested < 62 ==>
              forall id :: InBoth(keyword.value, semantic.value, id) && id in live ==> id in out.value
  {
    if query == "" {
      return None;
    }
    var limit := if requested <= 0 then 50 else requested;
    if keyword.None? {
      return None;
    }
    if semantic.None? {
      return keyword;
    }
    var merged := ReciprocalRankFusion(keyword.value, semantic.value, 60);
    ghost var all := merged;
    if |merged| > limit {
      merged := merged[..limit];
    }
    var events := LoadEvents(merged, live);
    CutIsBestFirst(keyword.value, semantic.value, all, limit, live, events);
    if requested < 62 {
      forall id | InBoth(keyword.value, semantic.value, id) ensures id in merged {
        TruncationKeepsBoth(keyword.value, semantic.value, 60, all, limit, id);
      }
    }
    out := Some(events);
  }

  /** loadEventsByID: one lookup for each id, in order; what is gone is dropped. */
  method LoadEvents(ids: seq<Id>, live: set<Id>) returns (out: seq<Id>)
    ensures LivePart(ids, live, out)
  {
    out := [];
    for i := 0 to |ids|
      invariant out == Kept(ids[..i], live)
    {
      assert ids[..i + 1][..i] == ids[..i];
      if ids[i] in live {
        out := out + [ids[i]];
      }
    }
    assert ids[..|ids|] == ids;
    KeptIsLivePart(ids, live);
  }
}
