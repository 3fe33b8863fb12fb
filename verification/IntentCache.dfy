/** The intent cache: the SQLite table with its counters, and the tiers of Resolve. */
module IntentCache {
  import opened Wrappers

  type Vec = seq<real>

  /** (normalized intent, os). SHA-256 of the normalized intent is taken to be injective. */
  type Key = (string, string)

  datatype Source = SourcePlugin | SourceCommunity

  datatype Row = Row(
    intent: string,
    invocation: string,
    confidence: real,
    hits: nat,
    embedding: Option<Vec>,
    source: Source)

  datatype Db = Db(rows: map<Key, Row>, hits: nat, misses: nat, total: nat)

  const EMPTY_DB := Db(map[], 0, 0, 0)

  /** What does not change over a session: normalization, the similarity measure, the floor. */
  datatype Params = Params(norm: string -> string, sim: (Vec, Vec) -> real, threshold: real)

  function KeyOf(p: Params, intent: string, os: string): Key {
    (p.norm(intent), os)
  }

  function Clamp(x: real): real {
    if x < 0.0 then 0.0 else if x > 1.0 then 1.0 else x
  }

  // ---- the store, on values ----

  function LookedUp(p: Params, db: Db, intent: string, os: string): Db {
    var k := KeyOf(p, intent, os);
    if k in db.rows then
      db.(rows := db.rows[k := db.rows[k].(hits := db.rows[k].hits + 1)], hits := db.hits + 1, total := db.total + 1)
    else db.(misses := db.misses + 1, total := db.total + 1)
  }

  predicate Writable(intent: string, os: string, invocation: string) {
    intent != "" && os != "" && invocation != ""
  }

  /** The upsert: a row that exists keeps its intent text and its hit count. */
  function Written(p: Params, db: Db, intent: string, os: string, invocation: string, confidence: real,
                   embedding: Option<Vec>, source: Source): Db
  {
    if !Writable(intent, os, invocation) then db
    else
      var k := KeyOf(p, intent, os);
      var emb := if embedding == Some([]) then None else embedding;
      var row :=
        if k in db.rows then
          db.rows[k].(invocation := invocation, confidence := Clamp(confidence), embedding := emb, source := source)
        else Row(intent, invocation, Clamp(confidence), 0, emb, source);
      db.(rows := db.rows[k := row])
  }

  /** A row of that OS whose similarity reaches the floor. */
  predicate Candidate(p: Params, db: Db, vec: Vec, threshold: real, os: string, k: Key) {
    k in db.rows && k.1 == os && db.rows[k].embedding.Some? && p.sim(vec, db.rows[k].embedding.value) >= threshold
  }

  function SimOf(p: Params, db: Db, vec: Vec, k: Key): real
    requires k in db.rows && db.rows[k].embedding.Some?
  {
    p.sim(vec, db.rows[k].embedding.value)
  }

  /** What LookupNearest may answer: nothing when no row qualifies, otherwise a qualifying
      row of maximal similarity. */
  ghost predicate AnswersNearest(p: Params, db: Db, vec: Vec, threshold: real, os: string, answer: Option<Key>) {
    match answer
    case None => vec == [] || os == "" || forall k :: !Candidate(p, db, vec, threshold, os, k)
    case Some(best) =>
      && vec != [] && os != ""
      && Candidate(p, db, vec, threshold, os, best)
      && forall k :: Candidate(p, db, vec, threshold, os, k) ==> SimOf(p, db, vec, k) <= SimOf(p, db, vec, best)
  }

  // ---- Resolve, on values ----

  datatype CommunityAnswer = CommunityError | NoEntry | Entry(invocation: string)

  datatype EmbedAnswer = EmbedError | EmbedNotImplemented | Embedded(vec: Vec)

  datatype InferAnswer = InferError | Inferred(invocation: string, confidence: real)

  datatype Plugin = Plugin(embed: EmbedAnswer, infer: InferAnswer)

  datatype Outcome =
    | Hit(invocation: string)
    | Fresh(invocation: string)
    | NoPlugin
    | PluginFailed
    | WriteFailed

  /** Which of the costly calls Resolve made. */
  datatype Used = Used(embed: bool, infer: bool)

  const NOTHING := Used(false, false)

  datatype Query = Query(intent: string, os: string, community: Option<CommunityAnswer>, plugin: Option<Plugin>)

  function AfterWrite(p: Params, db: Db, q: Query, invocation: string, confidence: real, embedding: Option<Vec>,
                      source: Source, success: Outcome, used: Used): (Db, Outcome, Used)
  {
    (Written(p, db, q.intent, q.os, invocation, confidence, embedding, source),
     if Writable(q.intent, q.os, invocation) then success else WriteFailed,
     used)
  }

  /** The tiers after a miss, given what the similarity scan answers. */
  function Missed(p: Params, db: Db, q: Query, near: Option<Key>): (Db, Outcome, Used) {
    if q.community.Some? && q.community.value.Entry? then
      var invocation := q.community.value.invocation;
      AfterWrite(p, db, q, invocation, 1.0, None, SourceCommunity, Hit(invocation), NOTHING)
    else if q.plugin.None? then (db, NoPlugin, NOTHING)
    else
      var vec := if q.plugin.value.embed.Embedded? then q.plugin.value.embed.vec else [];
      if vec != [] && near.Some? && near.value in db.rows then
        var invocation := db.rows[near.value].invocation;
        AfterWrite(p, db, q, invocation, 1.0, Some(vec), SourcePlugin, Hit(invocation), Used(true, false))
      else match q.plugin.value.infer
        case InferError => (db, PluginFailed, Used(true, true))
        case Inferred(invocation, confidence) =>
          AfterWrite(p, db, q, invocation, confidence, Some(vec), SourcePlugin, Fresh(invocation), Used(true, true))
  }

  function VecOf(q: Query): Vec {
    if q.plugin.Some? && q.plugin.value.embed.Embedded? then q.plugin.value.embed.vec else []
  }

  /** The similarity tier is reached. */
  predicate Scans(q: Query) {
    !(q.community.Some? && q.community.value.Entry?) && VecOf(q) != []
  }

  ghost predicate Resolves(p: Params, db: Db, q: Query, db': Db, outcome: Outcome, used: Used) {
    var k := KeyOf(p, q.intent, q.os);
    if k in db.rows then
      db' == LookedUp(p, db, q.intent, q.os) && outcome == Hit(db.rows[k].invocation) && used == NOTHING
    else
      var missed := LookedUp(p, db, q.intent, q.os);
      exists near :: (Scans(q) ==> AnswersNearest(p, missed, VecOf(q), p.threshold, q.os, near))
        && (db', outcome, used) == Missed(p, missed, q, near)
  }

  // ---- what the tiers promise ----

  /** A lookup counts itself: as a hit of the row and of the store, or as a miss. */
  ghost predicate Counted(db: Db, db': Db, k: Key) {
    && db'.total == db.total + 1 && db'.rows.Keys == db.rows.Keys
    && (forall x :: x in db.rows && x != k ==> db'.rows[x] == db.rows[x])
    && if k in db.rows then
         db'.hits == db.hits + 1 && db'.misses == db.misses && db'.rows[k] == db.rows[k].(hits := db.rows[k].hits + 1)
       else db'.misses == db.misses + 1 && db'.hits == db.hits
  }

  /** The row of k holds what was written; it keeps its text and hits if it was there. An empty
      vector is no embedding, and the confidence is brought into 0..1. */
  ghost predicate Stores(db: Db, db': Db, k: Key, intent: string, invocation: string, confidence: real,
                         embedding: Option<Vec>, source: Source)
  {
    && (db'.hits, db'.misses, db'.total) == (db.hits, db.misses, db.total)
    && db'.rows.Keys == db.rows.Keys + {k} && (forall x :: x in db.rows && x != k ==> db'.rows[x] == db.rows[x])
    && var row := db'.rows[k];
       && row.invocation == invocation && row.source == source
       && 0.0 <= row.confidence <= 1.0 && (0.0 <= confidence <= 1.0 ==> row.confidence == confidence)
       && (confidence < 0.0 ==> row.confidence == 0.0) && (confidence > 1.0 ==> row.confidence == 1.0)
       && row.embedding == (if embedding == Some([]) then None else embedding)
       && (row.intent, row.hits) == if k in db.rows then (db.rows[k].intent, db.rows[k].hits) else (intent, 0)
  }

  /** An answer for a missing key: stored and returned, unless one of the fields is empty. */
  ghost predicate Answers(p: Params, db: Db, q: Query, db': Db, outcome: Outcome, success: Outcome, invocation: string,
                          confidence: real, embedding: Option<Vec>, source: Source)
  {
    var k := (p.norm(q.intent), q.os);
    exists missed: Db :: Counted(db, missed, k) &&
      if q.intent != "" && q.os != "" && invocation != "" then
        outcome == success && Stores(missed, db', k, q.intent, invocation, confidence, embedding, source)
      else outcome == WriteFailed && db' == missed
  }

  /** A row of the same OS, close enough to the vector, and none closer. */
  ghost predicate Closest(p: Params, db: Db, vec: Vec, os: string, k: Key) {
    && Candidate(p, db, vec, p.threshold, os, k)
    && forall x :: Candidate(p, db, vec, p.threshold, os, x) ==> SimOf(p, db, vec, x) <= SimOf(p, db, vec, k)
  }

  /** The similarity tier answers: there is a vector, and a row close enough. */
  ghost predicate HasNear(p: Params, db: Db, q: Query) {
    VecOf(q) != [] && q.os != "" && exists k :: Candidate(p, db, VecOf(q), p.threshold, q.os, k)
  }

  predicate FromBundle(q: Query) {
    q.community.Some? && q.community.value.Entry?
  }

  /** What Resolve does, tier by tier. An exact row hits. For a missing key a bundle entry wins,
      with no call of the plugin. Then the closest row, if one is close enough, with Embed
      only. Only then Infer. */
  ghost predicate Tiers(p: Params, db: Db, q: Query, db': Db, outcome: Outcome, used: Used) {
    var k := (p.norm(q.intent), q.os);
    if k in db.rows then
      outcome == Hit(db.rows[k].invocation) && !used.embed && !used.infer && Counted(db, db', k)
    else if FromBundle(q) then
      && !used.embed && !used.infer
      && var invocation := q.community.value.invocation;
         Answers(p, db, q, db', outcome, Hit(invocation), invocation, 1.0, None, SourceCommunity)
    else if q.plugin.None? then
      outcome == NoPlugin && !used.embed && !used.infer && Counted(db, db', k)
    else if HasNear(p, db, q) then
      && used.embed && !used.infer
      && exists best :: Closest(p, db, VecOf(q), q.os, best) &&
           Answers(p, db, q, db', outcome, Hit(db.rows[best].invocation), db.rows[best].invocation, 1.0, Some(VecOf(q)), SourcePlugin)
    else
      && used.embed && used.infer
      && match q.plugin.value.infer
         case InferError => outcome == PluginFailed && Counted(db, db', k)
         case Inferred(invocation, confidence) =>
           Answers(p, db, q, db', outcome, Fresh(invocation), invocation, confidence, Some(VecOf(q)), SourcePlugin)
  }

  lemma LookedUpCounts(p: Params, db: Db, intent: string, os: string)
    ensures Counted(db, LookedUp(p, db, intent, os), (p.norm(intent), os))
  {
  }

  lemma WrittenStores(p: Params, db: Db, intent: string, os: string, invocation: string, confidence: real,
                      embedding: Option<Vec>, source: Source)
    ensures var db' := Written(p, db, intent, os, invocation, confidence, embedding, source);
      if intent != "" && os != "" && invocation != "" then
        Stores(db, db', (p.norm(intent), os), intent, invocation, confidence, embedding, source)
      else db' == db
  {
  }

  lemma WriteAnswers(p: Params, db: Db, q: Query, invocation: string, confidence: real, embedding: Option<Vec>,
                     source: Source, success: Outcome, used: Used)
    ensures var missed := LookedUp(p, db, q.intent, q.os);
      var after := AfterWrite(p, missed, q, invocation, confidence, embedding, source, success, used);
      Answers(p, db, q, after.0, after.1, success, invocation, confidence, embedding, source) && after.2 == used
  {
    var missed := LookedUp(p, db, q.intent, q.os);
    LookedUpCounts(p, db, q.intent, q.os);
    WrittenStores(p, missed, q.intent, q.os, invocation, confidence, embedding, source);
  }

  /** The scan sees the rows there were before the lookup was counted. */
  lemma NearIsClosest(p: Params, db: Db, q: Query, near: Option<Key>)
    requires KeyOf(p, q.intent, q.os) !in db.rows && VecOf(q) != []
    requires AnswersNearest(p, LookedUp(p, db, q.intent, q.os), VecOf(q), p.threshold, q.os, near)
    ensures near.Some? <==> HasNear(p, db, q)
    ensures near.Some? ==> Closest(p, db, VecOf(q), q.os, near.value)
  {
    var missed := LookedUp(p, db, q.intent, q.os);
    forall k ensures Candidate(p, missed, VecOf(q), p.threshold, q.os, k) <==> Candidate(p, db, VecOf(q), p.threshold, q.os, k) { }
    if near.Some? {
      forall x | Candidate(p, db, VecOf(q), p.threshold, q.os, x)
        ensures SimOf(p, db, VecOf(q), x) <= SimOf(p, db, VecOf(q), near.value)
      {
        assert Candidate(p, missed, VecOf(q), p.threshold, q.os, x);
      }
    }
  }

  lemma MissedByTiers(p: Params, db: Db, q: Query, near: Option<Key>)
    requires KeyOf(p, q.intent, q.os) !in db.rows
    requires Scans(q) ==> AnswersNearest(p, LookedUp(p, db, q.intent, q.os), VecOf(q), p.threshold, q.os, near)
    ensures var out := Missed(p, LookedUp(p, db, q.intent, q.os), q, near); Tiers(p, db, q, out.0, out.1, out.2)
  {
    LookedUpCounts(p, db, q.intent, q.os);
    if FromBundle(q) {
      var invocation := q.community.value.invocation;
      WriteAnswers(p, db, q, invocation, 1.0, None, SourceCommunity, Hit(invocation), NOTHING);
    } else if q.plugin.Some? {
      if VecOf(q) != [] { NearIsClosest(p, db, q, near); }
      PluginByTiers(p, db, q, near);
    }
  }

  lemma PluginByTiers(p: Params, db: Db, q: Query, near: Option<Key>)
    requires KeyOf(p, q.intent, q.os) !in db.rows && !FromBundle(q) && q.plugin.Some?
    requires VecOf(q) != [] ==> (near.Some? <==> HasNear(p, db, q)) && (near.Some? ==> Closest(p, db, VecOf(q), q.os, near.value))
    ensures var out := Missed(p, LookedUp(p, db, q.intent, q.os), q, near); Tiers(p, db, q, out.0, out.1, out.2)
  {
    LookedUpCounts(p, db, q.intent, q.os);
    if HasNear(p, db, q) {
      var found := db.rows[near.value].invocation;
      WriteAnswers(p, db, q, found, 1.0, Some(VecOf(q)), SourcePlugin, Hit(found), Used(true, false));
    } else if q.plugin.value.infer.Inferred? {
      var answer := q.plugin.value.infer;
      WriteAnswers(p, db, q, answer.invocation, answer.confidence, Some(VecOf(q)), SourcePlugin, Fresh(answer.invocation), Used(true, true));
    }
  }

  /** Whatever Resolve may do, it does by the tiers. */
  lemma ResolvesByTiers(p: Params, db: Db, q: Query)
    ensures forall db', outcome, used :: Resolves(p, db, q, db', outcome, used) ==> Tiers(p, db, q, db', outcome, used)
  {
    forall db', outcome, used | Resolves(p, db, q, db', outcome, used) ensures Tiers(p, db, q, db', outcome, used) {
      var missed := LookedUp(p, db, q.intent, q.os);
      LookedUpCounts(p, db, q.intent, q.os);
      if KeyOf(p, q.intent, q.os) !in db.rows {
        var near :| (Scans(q) ==> AnswersNearest(p, missed, VecOf(q), p.threshold, q.os, near))
          && (db', outcome, used) == Missed(p, missed, q, near);
        MissedByTiers(p, db, q, near);
      }
    }
  }

  // ---- the classes ----

  class Store {
    const p: Params
    var db: Db

    constructor (p: Params)
      ensures this.p == p && db == EMPTY_DB
    {
      this.p, db := p, EMPTY_DB;
    }

    method Lookup(intent: string, os: string) returns (invocation: string, hit: bool)
      modifies this
      ensures db == LookedUp(p, old(db), intent, os)
      ensures hit <==> KeyOf(p, intent, os) in old(db).rows
      ensures hit ==> invocation == old(db).rows[KeyOf(p, intent, os)].invocation
      ensures Counted(old(db), db, (p.norm(intent), os))
    {
      var k := KeyOf(p, intent, os);
      hit := k in db.rows;
      if hit {
        invocation := db.rows[k].invocation;
        db := db.(rows := db.rows[k := db.rows[k].(hits := db.rows[k].hits + 1)]);
        db := db.(hits := db.hits + 1, total := db.total + 1);
      } else {
        invocation := "";
        db := db.(misses := db.misses + 1, total := db.total + 1);
      }
    }

    method WriteWithSource(intent: string, os: string, invocation: string, confidence: real,
                           embedding: Option<Vec>, source: Source) returns (ok: bool)
      modifies this
      ensures db == Written(p, old(db), intent, os, invocation, confidence, embedding, source)
      ensures ok <==> intent != "" && os != "" && invocation != ""
      ensures ok ==> Stores(old(db), db, (p.norm(intent), os), intent, invocation, confidence, embedding, source)
      ensures !ok ==> db == old(db)
    {
      if intent == "" || os == "" || invocation == "" {
        return false;
      }
      var clamped := confidence;
      if clamped < 0.0 {
        clamped := 0.0;
      } else if clamped > 1.0 {
        clamped := 1.0;
      }
      var blob := if embedding == Some([]) then None else embedding;
      var k := KeyOf(p, intent, os);
      if k in db.rows {
        db := db.(rows := db.rows[k := db.rows[k].(invocation := invocation, confidence := clamped, embedding := blob, source := source)]);
      } else {
        db := db.(rows := db.rows[k := Row(intent, invocation, clamped, 0, blob, source)]);
      }
      ok := true;
    }

    /** The brute-force scan, in whatever order the rows come. */
    method LookupNearest(vec: Vec, threshold: real, os: string) returns (best: Option<Key>)
      ensures AnswersNearest(p, db, vec, threshold, os, best)
    {
      best := None;
      if vec == [] || os == "" {
        return;
      }
      var bestSim := 0.0;
      var todo := set k | k in db.rows && k.1 == os && db.rows[k].embedding.Some?;
      while todo != {}
        invariant todo <= set k | k in db.rows && k.1 == os && db.rows[k].embedding.Some?
        invariant best.Some? ==> Candidate(p, db, vec, threshold, os, best.value) && bestSim == SimOf(p, db, vec, best.value)
        invariant forall k :: Candidate(p, db, vec, threshold, os, k) && k !in todo ==>
                    best.Some? && SimOf(p, db, vec, k) <= bestSim
        decreases todo
      {
        var k :| k in todo;
        todo := todo - {k};
        var sim := p.sim(vec, db.rows[k].embedding.value);
        if sim >= threshold && (best.None? || sim > bestSim) {
          bestSim := sim;
          best := Some(k);
        }
      }
    }

    method Clear()
      modifies this
      ensures db == EMPTY_DB
    {
      db := EMPTY_DB;
    }
  }

  class Cache {
    const store: Store

    constructor (store: Store)
      ensures this.store == store
    {
      this.store := store;
    }

    method Resolve(q: Query) returns (outcome: Outcome, used: Used)
      modifies store
      ensures Resolves(store.p, old(store.db), q, store.db, outcome, used)
      ensures Tiers(store.p, old(store.db), q, store.db, outcome, used)
    {
      ResolvesByTiers(store.p, store.db, q);
      used := NOTHING;
      var invocation, hit := store.Lookup(q.intent, q.os);
      if hit {
        return Hit(invocation), used;
      }
      ghost var missed := store.db;
      if q.community.Some? && q.community.value.Entry? {
        var found := q.community.value.invocation;
        var ok := store.WriteWithSource(q.intent, q.os, found, 1.0, None, SourceCommunity);
        outcome := if ok then Hit(found) else WriteFailed;
        assert (store.db, outcome, used) == Missed(store.p, missed, q, None);
        return;
      }
      if q.plugin.None? {
        outcome := NoPlugin;
        assert (store.db, outcome, used) == Missed(store.p, missed, q, None);
        return;
      }
      var vec, near := [], None;
      used := Used(true, false);
      if q.plugin.value.embed.Embedded? && q.plugin.value.embed.vec != [] {
        vec := q.plugin.value.embed.vec;
        near := store.LookupNearest(vec, store.p.threshold, q.os);
        if near.Some? {
          var found := store.db.rows[near.value].invocation;
          var ok := store.WriteWithSource(q.intent, q.os, found, 1.0, Some(vec), SourcePlugin);
          outcome := if ok then Hit(found) else WriteFailed;
          assert (store.db, outcome, used) == Missed(store.p, missed, q, near);
          return;
        }
      }
      used := Used(true, true);
      match q.plugin.value.infer {
        case InferError => outcome := PluginFailed;
        case Inferred(inferred, confidence) =>
          var ok := store.WriteWithSource(q.intent, q.os, inferred, confidence, Some(vec), SourcePlugin);
          outcome := if ok then Fresh(inferred) else WriteFailed;
      }
      assert (store.db, outcome, used) == Missed(store.p, missed, q, near);
    }
  }

  // ---- runs ----

  datatype Event =
    | Resolved(q: Query, outcome: Outcome, used: Used)
    | Cleared

  /** dbs[i] is the store before the i-th event. */
  ghost predicate Run(p: Params, dbs: seq<Db>, events: seq<Event>) {
    && |dbs| == |events| + 1
    && forall i :: 0 <= i < |events| ==> Happens(p, dbs[i], events[i], dbs[i + 1])
  }

  ghost predicate Happens(p: Params, db: Db, e: Event, db': Db) {
    match e
    case Resolved(q, outcome, used) => Resolves(p, db, q, db', outcome, used)
    case Cleared => db' == EMPTY_DB
  }

  predicate Succeeded(outcome: Outcome, invocation: string) {
    outcome == Hit(invocation) || outcome == Fresh(invocation)
  }

  /** A success leaves its invocation under its key. */
  lemma SuccessStores(p: Params, db: Db, q: Query, db': Db, outcome: Outcome, used: Used, invocation: string)
    requires Resolves(p, db, q, db', outcome, used) && Succeeded(outcome, invocation)
    ensures KeyOf(p, q.intent, q.os) in db'.rows && db'.rows[KeyOf(p, q.intent, q.os)].invocation == invocation
  {
  }

  /** No resolve ever changes the invocation of a row that is there. */
  lemma RowStays(p: Params, db: Db, q: Query, db': Db, outcome: Outcome, used: Used, k: Key)
    requires Resolves(p, db, q, db', outcome, used) && k in db.rows
    ensures k in db'.rows && db'.rows[k].invocation == db.rows[k].invocation
  {
  }

  lemma {:induction false} RowStaysAlong(p: Params, dbs: seq<Db>, events: seq<Event>, i: nat, j: nat, k: Key)
    requires Run(p, dbs, events) && i <= j <= |events|
    requires forall n :: i <= n < j ==> events[n].Resolved?
    requires k in dbs[i].rows
    ensures k in dbs[j].rows && dbs[j].rows[k].invocation == dbs[i].rows[k].invocation
    decreases j
  {
    if i < j {
      RowStaysAlong(p, dbs, events, i, j - 1, k);
      assert Happens(p, dbs[j - 1], events[j - 1], dbs[j - 1 + 1]);
      var e := events[j - 1];
      RowStays(p, dbs[j - 1], e.q, dbs[j], e.outcome, e.used, k);
    }
  }

  /** An intent never costs twice: once a resolve succeeds, every later resolve of an intent
      that normalizes the same, for the same OS, hits with the same invocation and calls
      neither Embed nor Infer, whatever the plugin and the community bundle would say, until
      the cache is cleared. */
  lemma NeverCostsTwice(p: Params, dbs: seq<Db>, events: seq<Event>, i: nat, j: nat, invocation: string)
    requires Run(p, dbs, events) && i < j < |events|
    requires forall n :: i <= n <= j ==> events[n].Resolved?
    requires KeyOf(p, events[i].q.intent, events[i].q.os) == KeyOf(p, events[j].q.intent, events[j].q.os)
    requires Succeeded(events[i].outcome, invocation)
    ensures events[j].outcome == Hit(invocation) && events[j].used == NOTHING
  {
    assert Happens(p, dbs[i], events[i], dbs[i + 1]) && Happens(p, dbs[j], events[j], dbs[j + 1]);
    var e := events[i];
    SuccessStores(p, dbs[i], e.q, dbs[i + 1], e.outcome, e.used, invocation);
    RowStaysAlong(p, dbs, events, i + 1, j, KeyOf(p, e.q.intent, e.q.os));
  }

  // ---- provenance ----

  /** The event asks for a key that is not in the store, and the community bundle, or else the
      plugin's Infer, answers it for that OS. */
  predicate Supplies(p: Params, db: Db, e: Event, os: string, invocation: string) {
    && e.Resolved? && e.q.os == os && KeyOf(p, e.q.intent, e.q.os) !in db.rows
    && if e.q.community.Some? && e.q.community.value.Entry? then e.q.community.value.invocation == invocation
       else && e.used.infer && e.q.plugin.Some? && e.q.plugin.value.infer.Inferred?
            && e.q.plugin.value.infer.invocation == invocation
  }

  ghost predicate Supplied(p: Params, dbs: seq<Db>, events: seq<Event>, n: nat, os: string, invocation: string)
    requires |dbs| == |events| + 1 && n <= |events|
  {
    exists i :: 0 <= i < n && Supplies(p, dbs[i], events[i], os, invocation)
  }

  /** A resolve stores nothing but what this event supplies or a row of the same OS has already. */
  lemma StoredOrSupplied(p: Params, db: Db, e: Event, db': Db, k: Key)
    requires e.Resolved? && Resolves(p, db, e.q, db', e.outcome, e.used) && k in db'.rows
    ensures Supplies(p, db, e, k.1, db'.rows[k].invocation)
         || exists x :: x in db.rows && x.1 == k.1 && db.rows[x].invocation == db'.rows[k].invocation
  {
    var missed := LookedUp(p, db, e.q.intent, e.q.os);
    if k in db.rows {
      RowStays(p, db, e.q, db', e.outcome, e.used, k);
    } else if KeyOf(p, e.q.intent, e.q.os) !in db.rows {
      var near :| (Scans(e.q) ==> AnswersNearest(p, missed, VecOf(e.q), p.threshold, e.q.os, near))
        && (db', e.outcome, e.used) == Missed(p, missed, e.q, near);
    }
  }

  /** In every reachable store, each invocation was once given, for that row's OS and for a key
      that was not in the store then, by the community bundle or, when that had no entry, by
      Infer, however many similarity promotions lie between. */
  lemma {:induction false} Provenance(p: Params, dbs: seq<Db>, events: seq<Event>, n: nat, k: Key)
    requires Run(p, dbs, events) && dbs[0] == EMPTY_DB && n <= |events| && k in dbs[n].rows
    ensures Supplied(p, dbs, events, n, k.1, dbs[n].rows[k].invocation)
    decreases n
  {
    if n > 0 {
      var e := events[n - 1];
      assert Happens(p, dbs[n - 1], e, dbs[n - 1 + 1]);
      StoredOrSupplied(p, dbs[n - 1], e, dbs[n], k);
      if !Supplies(p, dbs[n - 1], e, k.1, dbs[n].rows[k].invocation) {
        var x :| x in dbs[n - 1].rows && x.1 == k.1 && dbs[n - 1].rows[x].invocation == dbs[n].rows[k].invocation;
        Provenance(p, dbs, events, n - 1, x);
      }
    }
  }

  // ---- counters ----

  ghost function SumHits(rows: map<Key, Row>): nat
    decreases |rows|
  {
    if rows == map[] then 0
    else
      var k :| k in rows;
      rows[k].hits + SumHits(rows - {k})
  }

  lemma {:induction false} SumHitsTake(rows: map<Key, Row>, k: Key)
    requires k in rows
    ensures SumHits(rows) == rows[k].hits + SumHits(rows - {k})
    decreases |rows|
  {
    var x :| x in rows && SumHits(rows) == rows[x].hits + SumHits(rows - {x});
    if x != k {
      SumHitsTake(rows - {x}, k);
      SumHitsTake(rows - {k}, x);
      assert rows - {x} - {k} == rows - {k} - {x};
    }
  }

  lemma SumHitsPut(rows: map<Key, Row>, k: Key, row: Row)
    ensures SumHits(rows[k := row]) == SumHits(rows - {k}) + row.hits
    ensures k in rows ==> SumHits(rows) == rows[k].hits + SumHits(rows - {k})
    ensures k !in rows ==> rows - {k} == rows
  {
    SumHitsTake(rows[k := row], k);
    assert rows[k := row] - {k} == rows - {k};
    if k in rows { SumHitsTake(rows, k); }
  }

  ghost predicate Balanced(db: Db) {
    db.hits + db.misses == db.total && SumHits(db.rows) == db.hits
  }

  lemma WrittenBalanced(p: Params, db: Db, intent: string, os: string, invocation: string, confidence: real,
                        embedding: Option<Vec>, source: Source)
    requires Balanced(db)
    ensures Balanced(Written(p, db, intent, os, invocation, confidence, embedding, source))
  {
    var after := Written(p, db, intent, os, invocation, confidence, embedding, source);
    if after != db {
      var k := KeyOf(p, intent, os);
      SumHitsPut(db.rows, k, after.rows[k]);
    }
  }

  lemma ResolveBalanced(p: Params, db: Db, q: Query, db': Db, outcome: Outcome, used: Used)
    requires Balanced(db) && Resolves(p, db, q, db', outcome, used)
    ensures Balanced(db')
  {
    var k := KeyOf(p, q.intent, q.os);
    var missed := LookedUp(p, db, q.intent, q.os);
    if k in db.rows {
      SumHitsPut(db.rows, k, missed.rows[k]);
    } else {
      var near :| (Scans(q) ==> AnswersNearest(p, missed, VecOf(q), p.threshold, q.os, near))
        && (db', outcome, used) == Missed(p, missed, q, near);
      forall invocation, confidence, embedding, source
        ensures Balanced(Written(p, missed, q.intent, q.os, invocation, confidence, embedding, source))
      {
        WrittenBalanced(p, missed, q.intent, q.os, invocation, confidence, embedding, source);
      }
    }
  }

  /** In every reachable store the counters add up, and the rows' hit counts add up to the hits. */
  lemma {:induction false} CountersConserved(p: Params, dbs: seq<Db>, events: seq<Event>, n: nat)
    requires Run(p, dbs, events) && dbs[0] == EMPTY_DB && n <= |events|
    ensures Balanced(dbs[n])
  {
    if n > 0 {
      CountersConserved(p, dbs, events, n - 1);
      var e := events[n - 1];
      assert Happens(p, dbs[n - 1], e, dbs[n - 1 + 1]);
      if e.Resolved? { ResolveBalanced(p, dbs[n - 1], e.q, dbs[n], e.outcome, e.used); }
    }
  }
}
