/** The job table: a mutable map with current and previous pointers. */
module JobTable {
  import opened Wrappers

  datatype Status = Running | Stopped | Done

  datatype Job = Job(pgid: int, leaderPid: int, cmdline: string, status: Status, exitCode: int, foreground: bool)

  datatype Table = Table(jobs: map<nat, Job>, nextId: nat, current: nat, prev: nat)

  datatype Flag = Plus | Minus | Blank

  datatype Notice = Notice(id: nat, flag: Flag, status: Status, cmdline: string, exitCode: int)

  datatype ListRow = ListRow(id: nat, flag: Flag, status: Status, cmdline: string)

  const NEW_TABLE := Table(map[], 1, 0, 0)

  /** The buffer of the notices channel. */
  const QUEUE_SIZE: nat := 32

  // ---- the critical sections, on values ----

  function Added(t: Table, pgid: int, pid: int, cmdline: string, status: Status): Table {
    Table(t.jobs[t.nextId := Job(pgid, pid, cmdline, status, 0, false)], t.nextId + 1, t.nextId, t.current)
  }

  function FlagOf(t: Table, id: nat): Flag {
    if id == t.current then Plus else if id == t.prev then Minus else Blank
  }

  /** The locked part of SetStatus: the new table, and the notice to send after unlocking. */
  function StatusSet(t: Table, id: nat, status: Status, exit: int): (Table, Option<Notice>) {
    if id !in t.jobs then (t, None)
    else
      var j := t.jobs[id];
      var notify := !j.foreground && status != Running && j.status != status;
      (t.(jobs := t.jobs[id := j.(status := status, exitCode := exit)]),
       if notify then Some(Notice(id, FlagOf(t, id), status, j.cmdline, exit)) else None)
  }

  function Resumed(t: Table, id: nat): Table {
    if id in t.jobs then t.(jobs := t.jobs[id := t.jobs[id].(status := Running, exitCode := 0)]) else t
  }

  function ForegroundSet(t: Table, id: nat, fg: bool): Table {
    if id in t.jobs then t.(jobs := t.jobs[id := t.jobs[id].(foreground := fg)]) else t
  }

  function CurrentSet(t: Table, id: nat): Table {
    if id !in t.jobs || t.current == id then t else t.(prev := t.current, current := id)
  }

  /** ClearForeground drops the flag of one job with the pid, whichever the map yields first. */
  ghost predicate Clears(t: Table, pid: int, t': Table) {
    if forall x :: x in t.jobs ==> t.jobs[x].leaderPid != pid then t' == t
    else exists x :: x in t.jobs && t.jobs[x].leaderPid == pid && t' == ForegroundSet(t, x, false)
  }

  ghost predicate Highest(ids: set<nat>, n: nat) {
    if ids == {} then n == 0 else n in ids && forall x :: x in ids ==> x <= n
  }

  /** The second highest: the highest once the highest is taken out; 0 with fewer than two. */
  ghost predicate SecondHighest(ids: set<nat>, n: nat) {
    exists top :: Highest(ids, top) && Highest(ids - {top}, n)
  }

  /** What Reap leaves: the jobs that are not done, and repaired pointers. */
  ghost predicate Reaps(t: Table, t': Table) {
    && t'.jobs == (map id | id in t.jobs && t.jobs[id].status != Done :: t.jobs[id])
    && if t'.jobs == map[] then t'.nextId == 1 && t'.current == 0 && t'.prev == 0
       else
         && t'.nextId == t.nextId
         && (if t.current in t'.jobs then t'.current == t.current else Highest(t'.jobs.Keys, t'.current))
         && (if t.prev in t'.jobs then t'.prev == t.prev else SecondHighest(t'.jobs.Keys, t'.prev))
  }

  // ---- the invariant ----

  ghost predicate Inv(t: Table) {
    && (forall id :: id in t.jobs ==> 1 <= id < t.nextId)
    && (t.jobs == map[] <==> t.current == 0)
    && (t.current == 0 || t.current in t.jobs)
    && (t.prev == 0 || t.prev in t.jobs)
    && (forall a, b :: a in t.jobs && b in t.jobs && a != b ==> t.prev != 0)
    && t.nextId >= 1
  }

  lemma ReapKeepsInv(t: Table, t': Table)
    requires Inv(t) && Reaps(t, t')
    ensures Inv(t')
  {
    if t'.jobs != map[] {
      assert t'.jobs.Keys != {} by {
        var id :| id in t'.jobs;
        assert id in t'.jobs.Keys;
      }
      if t.prev !in t'.jobs {
        var top :| Highest(t'.jobs.Keys, top) && Highest(t'.jobs.Keys - {top}, t'.prev);
        forall a, b | a in t'.jobs && b in t'.jobs && a != b ensures t'.prev != 0 {
          assert a in t'.jobs.Keys - {top} || b in t'.jobs.Keys - {top};
        }
      }
    }
  }

  // ---- the table ----

  /** The tables differ at most in one job. */
  ghost predicate OnlyJob(t: Table, t': Table, id: nat) {
    && t'.jobs.Keys == t.jobs.Keys && (forall x :: x in t.jobs && x != id ==> t'.jobs[x] == t.jobs[x])
    && (t'.nextId, t'.current, t'.prev) == (t.nextId, t.current, t.prev)
  }

  /** A job given a status carries the exit code given with it. In the background, and entering
      Done or Stopped, it deserves a notice with that code. */
  ghost predicate Given(t: Table, t': Table, notice: Option<Notice>, id: nat, status: Status, exit: int) {
    && OnlyJob(t, t', id)
    && (id in t.jobs ==> t'.jobs[id] == t.jobs[id].(status := status, exitCode := exit))
    && (notice.Some? <==> id in t.jobs && !t.jobs[id].foreground && status in [Done, Stopped] && t.jobs[id].status != status)
    && (notice.Some? ==>
          && notice.value.id == id && notice.value.status == status && notice.value.exitCode == exit
          && notice.value.cmdline == t.jobs[id].cmdline
          && notice.value.flag == if id == t.current then Plus else if id == t.prev then Minus else Blank)
  }

  lemma StatusGiven(t: Table, id: nat, status: Status, exit: int)
    ensures Given(t, StatusSet(t, id, status, exit).0, StatusSet(t, id, status, exit).1, id, status, exit)
  {
  }

  class JobTable {
    var table: Table
    var queue: seq<Notice>

    constructor ()
      ensures table == NEW_TABLE && queue == []
    {
      table, queue := NEW_TABLE, [];
    }

    method Add(pgid: int, pid: int, cmdline: string, status: Status) returns (id: nat)
      modifies `table
      ensures table == Added(old(table), pgid, pid, cmdline, status) && id == old(table).nextId
      ensures table.nextId == id + 1 && table.current == id && table.prev == old(table).current
      ensures id in table.jobs && table.jobs[id] == Job(pgid, pid, cmdline, status, 0, false)
      ensures forall x :: x in old(table).jobs && x != id ==> x in table.jobs && table.jobs[x] == old(table).jobs[x]
    {
      id := table.nextId;
      table := table.(nextId := table.nextId + 1);
      table := table.(jobs := table.jobs[id := Job(pgid, pid, cmdline, status, 0, false)]);
      table := table.(prev := table.current);
      table := table.(current := id);
    }

    /** SetStatus, when nothing comes between the unlock and the send. */
    method SetStatus(id: nat, status: Status, exit: int)
      modifies this
      ensures var out := StatusSet(old(table), id, status, exit);
        table == out.0 && queue == (if out.1.Some? && |old(queue)| < QUEUE_SIZE then old(queue) + [out.1.value] else old(queue))
      ensures exists notice :: Given(old(table), table, notice, id, status, exit) &&
                queue == if notice.Some? && |old(queue)| < 32 then old(queue) + [notice.value] else old(queue)
    {
      StatusGiven(table, id, status, exit);
      if id !in table.jobs {
        return;
      }
      var j := table.jobs[id];
      table := table.(jobs := table.jobs[id := j.(status := status, exitCode := exit)]);
      var notify := !j.foreground && (status == Done || status == Stopped) && j.status != status;
      var flag := FlagOf(table, id);
      if notify && |queue| < QUEUE_SIZE {
        queue := queue + [Notice(id, flag, status, j.cmdline, exit)];
      }
    }

    method SetRunning(id: nat)
      modifies `table
      ensures table == Resumed(old(table), id)
      ensures OnlyJob(old(table), table, id)
      ensures id in table.jobs ==> table.jobs[id] == old(table).jobs[id].(status := Running, exitCode := 0)
    {
      if id in table.jobs {
        table := table.(jobs := table.jobs[id := table.jobs[id].(status := Running, exitCode := 0)]);
      }
    }

    method MarkForeground(id: nat)
      modifies `table
      ensures table == ForegroundSet(old(table), id, true)
      ensures OnlyJob(old(table), table, id)
      ensures id in table.jobs ==> table.jobs[id] == old(table).jobs[id].(foreground := true)
    {
      if id in table.jobs {
        table := table.(jobs := table.jobs[id := table.jobs[id].(foreground := true)]);
      }
    }

    /** The first job found with the pid, in map order. */
    method FindByPid(pid: int) returns (id: Option<nat>)
      ensures id.Some? ==> id.value in table.jobs && table.jobs[id.value].leaderPid == pid
      ensures id.None? ==> forall x :: x in table.jobs ==> table.jobs[x].leaderPid != pid
    {
      var todo := table.jobs.Keys;
      while todo != {}
        invariant todo <= table.jobs.Keys
        invariant forall x :: x in table.jobs && x !in todo ==> table.jobs[x].leaderPid != pid
        decreases todo
      {
        var x :| x in todo;
        todo := todo - {x};
        if table.jobs[x].leaderPid == pid {
          return Some(x);
        }
      }
      id := None;
    }

    method ClearForeground(pid: int)
      modifies `table
      ensures Clears(old(table), pid, table)
      ensures exists id :: OnlyJob(old(table), table, id) &&
                if id in table.jobs && old(table).jobs[id].leaderPid == pid then table.jobs[id] == old(table).jobs[id].(foreground := false)
                else table == old(table) && forall x :: x in table.jobs ==> table.jobs[x].leaderPid != pid
    {
      ghost var was := table;
      assert OnlyJob(was, was, 0) && OnlyJob(was, was, was.nextId);
      var id := FindByPid(pid);
      if id.Some? {
        table := ForegroundSet(table, id.value, false);
        assert OnlyJob(was, table, id.value);
      }
    }

    method SetCurrent(id: nat)
      modifies `table
      ensures table == CurrentSet(old(table), id)
      ensures table.jobs == old(table).jobs && table.nextId == old(table).nextId
      ensures if id in table.jobs && id != old(table).current then table.current == id && table.prev == old(table).current
              else table == old(table)
    {
      if id !in table.jobs {
        return;
      }
      if table.current == id {
        return;
      }
      table := table.(prev := table.current, current := id);
    }

    /** highestIDLocked, whatever the map order. */
    method HighestId() returns (best: nat)
      ensures Highest(table.jobs.Keys, best)
    {
      best := 0;
      var todo := table.jobs.Keys;
      while todo != {}
        invariant todo <= table.jobs.Keys
        invariant Highest(table.jobs.Keys - todo, best)
        decreases todo
      {
        var id :| id in todo;
        assert table.jobs.Keys - (todo - {id}) == (table.jobs.Keys - todo) + {id};
        todo := todo - {id};
        if id > best {
          best := id;
        }
      }
      assert table.jobs.Keys - todo == table.jobs.Keys;
    }

    /** secondHighestIDLocked, whatever the map order. Ids are positive. */
    method SecondHighestId() returns (second: nat)
      requires forall id :: id in table.jobs ==> id > 0
      ensures SecondHighest(table.jobs.Keys, second)
    {
      var first := 0;
      second := 0;
      var todo := table.jobs.Keys;
      while todo != {}
        invariant todo <= table.jobs.Keys
        invariant Highest(table.jobs.Keys - todo, first)
        invariant Highest(table.jobs.Keys - todo - {first}, second)
        decreases todo
      {
        var id :| id in todo;
        ghost var seen := table.jobs.Keys - todo;
        assert table.jobs.Keys - (todo - {id}) == seen + {id};
        todo := todo - {id};
        if id > first {
          assert seen + {id} - {id} == seen;
          second := first;
          first := id;
        } else {
          assert id != first;
          assert seen + {id} - {first} == (seen - {first}) + {id};
          if id > second {
            second := id;
          }
        }
      }
      assert table.jobs.Keys - todo == table.jobs.Keys;
    }

    /** Reap. The ids come back in map order. */
    method Reap() returns (removed: seq<nat>)
      requires Inv(table)
      modifies `table
      ensures Reaps(old(table), table)
      ensures forall id :: id in removed <==> id in old(table).jobs && old(table).jobs[id].status == Done
    {
      removed := [];
      var kept := table.jobs;
      var todo := table.jobs.Keys;
      while todo != {}
        invariant todo <= table.jobs.Keys
        invariant kept == map id | id in table.jobs && (id in todo || table.jobs[id].status != Done) :: table.jobs[id]
        invariant forall id :: id in removed <==> id in table.jobs && id !in todo && table.jobs[id].status == Done
        decreases todo
      {
        var id :| id in todo;
        todo := todo - {id};
        if table.jobs[id].status == Done {
          kept := kept - {id};
          removed := removed + [id];
        }
      }
      table := table.(jobs := kept);
      if kept == map[] {
        table := table.(nextId := 1, current := 0, prev := 0);
      } else {
        if table.current !in table.jobs {
          var top := HighestId();
          table := table.(current := top);
        }
        if table.prev !in table.jobs {
          var next := SecondHighestId();
          table := table.(prev := next);
        }
      }
    }

    method PendingNotices() returns (out: seq<Notice>)
      modifies `queue
      ensures queue == [] && out == old(queue)
    {
      out := [];
      while queue != []
        invariant out + queue == old(queue)
        decreases |queue|
      {
        out := out + [queue[0]];
        queue := queue[1..];
      }
    }

    /** drainJobNotices: print what is queued, then evict the done jobs. */
    method DrainJobNotices() returns (printed: seq<Notice>)
      requires Inv(table)
      modifies this
      ensures printed == old(queue) && queue == [] && Reaps(old(table), table) && Inv(table)
    {
      printed := PendingNotices();
      var _ := Reap();
      ReapKeepsInv(old(table), table);
    }

    method Ids() returns (ids: array<nat>)
      ensures fresh(ids)
      ensures forall id :: id in ids[..] <==> id in table.jobs
      ensures forall i, j :: 0 <= i < j < ids.Length ==> ids[i] != ids[j]
    {
      var found: seq<nat> := [];
      var todo := table.jobs.Keys;
      while todo != {}
        invariant todo <= table.jobs.Keys
        invariant forall id :: id in found <==> id in table.jobs && id !in todo
        invariant forall i, j :: 0 <= i < j < |found| ==> found[i] != found[j]
        decreases todo
      {
        var id :| id in todo;
        todo := todo - {id};
        found := found + [id];
      }
      ids := new nat[|found|](i requires 0 <= i < |found| => found[i]);
      assert ids[..] == found;
    }

    /** List: the jobs in ascending order, with exactly one + and at most one -. */
    method List() returns (out: seq<ListRow>)
      requires Inv(table)
      ensures Listing(table, out)
      ensures out != [] ==> exists i :: 0 <= i < |out| && out[i].flag == Plus
      ensures forall i, j :: 0 <= i < j < |out| ==> out[i].flag == Blank || out[i].flag != out[j].flag
    {
      var ids := Ids();
      Sort(ids);
      ghost var sorted := ids[..];
      out := [];
      for i := 0 to ids.Length
        invariant ids[..] == sorted && |out| == i
        invariant forall k :: 0 <= k < i ==> out[k].id == sorted[k] && RowFor(table, out[k])
      {
        assert ids[i] == sorted[i] && sorted[i] in sorted;
        out := out + [ListRow(ids[i], FlagOf(table, ids[i]), table.jobs[ids[i]].status, table.jobs[ids[i]].cmdline)];
      }
      ListsAll(table, sorted, out);
      OneOfEach(table, out);
    }
  }

  /** Every job once, in ascending order, with its flag. */
  ghost predicate Listing(t: Table, out: seq<ListRow>) {
    && (forall i, j :: 0 <= i < j < |out| ==> out[i].id < out[j].id)
    && (forall id :: id in t.jobs <==> exists i :: 0 <= i < |out| && out[i].id == id)
    && (forall i :: 0 <= i < |out| ==> RowFor(t, out[i]))
  }

  lemma ListsAll(t: Table, ids: seq<nat>, out: seq<ListRow>)
    requires forall id :: id in ids <==> id in t.jobs
    requires forall i, j :: 0 <= i < j < |ids| ==> ids[i] < ids[j]
    requires |out| == |ids| && forall k :: 0 <= k < |ids| ==> out[k].id == ids[k] && RowFor(t, out[k])
    ensures Listing(t, out)
  {
    forall id | id in t.jobs ensures exists i :: 0 <= i < |out| && out[i].id == id {
      var i :| 0 <= i < |ids| && ids[i] == id;
      assert out[i].id == id;
    }
  }

  lemma OneOfEach(t: Table, out: seq<ListRow>)
    requires Inv(t) && Listing(t, out)
    ensures out != [] ==> exists i :: 0 <= i < |out| && out[i].flag == Plus
    ensures forall i, j :: 0 <= i < j < |out| ==> out[i].flag == Blank || out[i].flag != out[j].flag
  {
    if out != [] {
      assert RowFor(t, out[0]);
      var i :| 0 <= i < |out| && out[i].id == t.current;
      assert RowFor(t, out[i]);
    }
  }

  ghost predicate RowFor(t: Table, row: ListRow) {
    row.id in t.jobs && row == ListRow(row.id, FlagOf(t, row.id), t.jobs[row.id].status, t.jobs[row.id].cmdline)
  }

  ghost predicate Apart(a: array<nat>)
    reads a
  {
    forall i, j :: 0 <= i < j < a.Length ==> a[i] != a[j]
  }

  /** The insertion sort of List, in place. */
  method Sort(a: array<nat>)
    requires Apart(a)
    modifies a
    ensures multiset(a[..]) == multiset(old(a[..]))
    ensures forall x :: x in a[..] <==> x in old(a[..])
    ensures forall i, j :: 0 <= i < j < a.Length ==> a[i] < a[j]
  {
    var i := 1;
    while i < a.Length
      invariant multiset(a[..]) == multiset(old(a[..]))
      invariant Apart(a)
      invariant forall x, y :: 0 <= x < y < i && y < a.Length ==> a[x] < a[y]
    {
      Sink(a, i);
      i := i + 1;
    }
    assert forall x :: x in multiset(a[..]) <==> x in a[..];
  }

  method SwapDown(a: array<nat>, k: nat)
    requires 0 < k < a.Length && Apart(a)
    modifies a
    ensures multiset(a[..]) == multiset(old(a[..])) && Apart(a)
    ensures a[k] == old(a[k - 1]) && a[k - 1] == old(a[k])
    ensures forall x :: 0 <= x < a.Length && x != k && x != k - 1 ==> a[x] == old(a[x])
  {
    a[k - 1], a[k] := a[k], a[k - 1];
  }

  /** Moves the element at i down to its place among the sorted ones before it. */
  method Sink(a: array<nat>, i: nat)
    requires i < a.Length && Apart(a)
    requires forall x, y :: 0 <= x < y < i ==> a[x] < a[y]
    modifies a
    ensures multiset(a[..]) == multiset(old(a[..])) && Apart(a)
    ensures forall x, y :: 0 <= x < y <= i ==> a[x] < a[y]
  {
    var k := i;
    while k > 0 && a[k - 1] > a[k]
      invariant 0 <= k <= i
      invariant multiset(a[..]) == multiset(old(a[..])) && Apart(a)
      invariant forall x, y :: 0 <= x < y <= i && y != k ==> a[x] < a[y]
    {
      SwapDown(a, k);
      k := k - 1;
    }
    assert k > 0 ==> a[k - 1] != a[k];
  }

  // ---- when current and prev are the same job ----

  lemma HighestUnique(ids: set<nat>, a: nat, b: nat)
    requires Highest(ids, a) && Highest(ids, b)
    ensures a == b
  {
  }

  /** While jobs are left, an eviction leaves current and prev at the same job exactly when
      both stay and were the same; or current stays, prev goes, and current is the second
      highest that is left; or current goes, prev stays, and prev is the highest left. */
  lemma PointersMeetIff(t: Table, t': Table)
    requires Inv(t) && Reaps(t, t') && t'.jobs != map[]
    ensures var stays, follows := t.current in t'.jobs, t.prev in t'.jobs;
      t'.current == t'.prev <==>
      || (stays && follows && t.current == t.prev)
      || (stays && !follows && SecondHighest(t'.jobs.Keys, t.current))
      || (!stays && follows && Highest(t'.jobs.Keys, t.prev))
  {
    var ids := t'.jobs.Keys;
    var some :| some in t'.jobs;
    assert some in ids;
    if t.prev !in t'.jobs {
      var top :| Highest(ids, top) && Highest(ids - {top}, t'.prev);
      if t.current in t'.jobs && SecondHighest(ids, t.current) {
        var other :| Highest(ids, other) && Highest(ids - {other}, t.current);
        HighestUnique(ids, top, other);
        HighestUnique(ids - {top}, t.current, t'.prev);
      }
      if t.current !in t'.jobs { HighestUnique(ids, top, t'.current); }
    } else if t.current !in t'.jobs && Highest(ids, t.prev) {
      HighestUnique(ids, t.prev, t'.current);
    }
  }

  /** A listing shows a - exactly when prev is set and is not current. */
  lemma MinusIff(t: Table, out: seq<ListRow>)
    requires Inv(t) && Listing(t, out)
    ensures (exists i :: 0 <= i < |out| && out[i].flag == Minus) <==> t.prev != 0 && t.prev != t.current
  {
    if i :| 0 <= i < |out| && out[i].flag == Minus {
      assert RowFor(t, out[i]);
    }
    if t.prev != 0 && t.prev != t.current {
      var i :| 0 <= i < |out| && out[i].id == t.prev;
      assert RowFor(t, out[i]);
    }
  }

  /** Three jobs, the first made current and the third ended. */
  function ThirdDone(pid: int, cmdline: string): Table {
    var job := Job(pid, pid, cmdline, Running, 0, false);
    Table(map[1 := job, 2 := job, 3 := job.(status := Done)], 4, 1, 3)
  }

  lemma ThirdDoneIs(pid: int, cmdline: string)
    ensures var two := Added(Added(NEW_TABLE, pid, pid, cmdline, Running), pid, pid, cmdline, Running);
      StatusSet(CurrentSet(Added(two, pid, pid, cmdline, Running), 1), 3, Done, 0).0 == ThirdDone(pid, cmdline)
    ensures Inv(ThirdDone(pid, cmdline))
  {
    var two := Added(Added(NEW_TABLE, pid, pid, cmdline, Running), pid, pid, cmdline, Running);
    var three := CurrentSet(Added(two, pid, pid, cmdline, Running), 1);
    var job := Job(pid, pid, cmdline, Running, 0, false);
    assert three == Table(map[1 := job, 2 := job, 3 := job], 4, 1, 3);
  }

  /** Once the third job is evicted, both pointers are at the first of the two jobs that are
      left, and a listing of them has no -. */
  lemma CurrentCanBePrev(pid: int, cmdline: string, t': Table, out: seq<ListRow>)
    requires Reaps(ThirdDone(pid, cmdline), t') && Listing(t', out)
    ensures t'.jobs.Keys == {1, 2} && t'.current == 1 && t'.prev == 1
    ensures forall i :: 0 <= i < |out| ==> out[i].flag != Minus
  {
    var t := ThirdDone(pid, cmdline);
    ThirdDoneIs(pid, cmdline);
    LeftKeys(t, t');
    ReapKeepsInv(t, t');
    OneAndTwo(t'.jobs.Keys, t'.prev);
    MinusIff(t', out);
  }

  lemma LeftKeys(t: Table, t': Table)
    requires t.jobs.Keys == {1, 2, 3} && t.current == 1 && t.prev == 3 && Reaps(t, t')
    requires t.jobs[1].status != Done && t.jobs[2].status != Done && t.jobs[3].status == Done
    ensures t'.jobs.Keys == {1, 2} && t'.current == 1 && SecondHighest({1, 2}, t'.prev)
  {
    assert 1 in t'.jobs && 2 in t'.jobs && 3 !in t'.jobs;
    assert t'.jobs.Keys == {1, 2};
  }

  lemma OneAndTwo(ids: set<nat>, n: nat)
    requires ids == {1, 2} && SecondHighest(ids, n)
    ensures n == 1
  {
    var top :| Highest(ids, top) && Highest(ids - {top}, n);
    HighestUnique(ids, top, 2);
    assert ids - {2} == {1};
  }
}
