/** The SIGCHLD reaper, the prompt and the built-ins, interleaved over one job table. */
module JobNotices {
  import opened JobTable

  /** What Wait4 reports about a child. */
  datatype WaitStatus = Exited(code: int) | Signaled(sig: int) | StoppedBy(sig: int) | Continued

  function NewStatus(w: WaitStatus): (Status, int) {
    match w
    case Exited(code) => (Done, code)
    case Signaled(sig) => (Done, 128 + sig)
    case StoppedBy(_) => (Stopped, 0)
    case Continued => (Running, 0)
  }

  /** The table, the queued notices, the notices whose SetStatus has unlocked but not yet
      sent, those the prompt has printed, and those the full queue turned away. */
  datatype State = State(
    table: Table,
    queue: seq<Notice>,
    sending: multiset<Notice>,
    printed: multiset<Notice>,
    dropped: multiset<Notice>)

  const START := State(NEW_TABLE, [], multiset{}, multiset{}, multiset{})

  /** One atomic action. The reaper sets the status of a job it has looked up by pid; the
      table may have moved on in between, so any id can turn up. */
  datatype Action =
    | Add(pgid: int, pid: int, cmdline: string, status: Status)
    | Reaped(id: nat, wait: WaitStatus)
    | Set(id: nat, status: Status, exit: int)
    | Send(n: Notice)
    | Take
    | Evict
    | SetRunning(id: nat)
    | MarkForeground(id: nat)
    | ClearForeground(pid: int)
    | SetCurrent(id: nat)

  ghost predicate SetsStatus(s: State, id: nat, status: Status, exit: int, s': State) {
    var out := StatusSet(s.table, id, status, exit);
    s' == s.(table := out.0, sending := if out.1.Some? then s.sending + multiset{out.1.value} else s.sending)
  }

  ghost predicate Next(s: State, a: Action, s': State) {
    match a
    case Add(pgid, pid, cmdline, status) => s' == s.(table := Added(s.table, pgid, pid, cmdline, status))
    case Reaped(id, wait) => SetsStatus(s, id, NewStatus(wait).0, NewStatus(wait).1, s')
    case Set(id, status, exit) => SetsStatus(s, id, status, exit, s')
    case Send(n) =>
      && n in s.sending
      && s' == if |s.queue| < QUEUE_SIZE
               then s.(sending := s.sending - multiset{n}, queue := s.queue + [n])
               else s.(sending := s.sending - multiset{n}, dropped := s.dropped + multiset{n})
    case Take =>
      s.queue != [] && s' == s.(queue := s.queue[1..], printed := s.printed + multiset{s.queue[0]})
    case Evict => Reaps(s.table, s'.table) && s' == s.(table := s'.table)
    case SetRunning(id) => s' == s.(table := Resumed(s.table, id))
    case MarkForeground(id) => s' == s.(table := ForegroundSet(s.table, id, true))
    case ClearForeground(pid) => Clears(s.table, pid, s'.table) && s' == s.(table := s'.table)
    case SetCurrent(id) => s' == s.(table := CurrentSet(s.table, id))
  }

  ghost predicate Run(states: seq<State>, actions: seq<Action>) {
    && |states| == |actions| + 1 && states[0] == START
    && forall i :: 0 <= i < |actions| ==> Next(states[i], actions[i], states[i + 1])
  }

  // ---- the table invariant over every run ----

  lemma AddKeepsInv(t: Table, pgid: int, pid: int, cmdline: string, status: Status)
    requires Inv(t)
    ensures Inv(Added(t, pgid, pid, cmdline, status))
  {
    assert t.nextId in Added(t, pgid, pid, cmdline, status).jobs;
  }

  /** A change of jobs or pointers that keeps the ids and leaves the pointers live. */
  lemma SameIdsKeepInv(t: Table, t': Table)
    requires Inv(t) && t'.jobs.Keys == t.jobs.Keys && t'.nextId == t.nextId
    requires (t'.current, t'.prev) == (t.current, t.prev)
          || (t'.current in t.jobs && t'.prev == t.current && t.current != 0)
    ensures Inv(t')
  {
    assert t.jobs == map[] <==> t.jobs.Keys == {};
    assert t'.jobs == map[] <==> t'.jobs.Keys == {};
  }

  lemma StatusKeepsInv(t: Table, id: nat, status: Status, exit: int)
    requires Inv(t)
    ensures Inv(StatusSet(t, id, status, exit).0)
  {
    assert StatusSet(t, id, status, exit).0.jobs.Keys == t.jobs.Keys;
    SameIdsKeepInv(t, StatusSet(t, id, status, exit).0);
  }

  lemma SetCurrentKeepsInv(t: Table, id: nat)
    requires Inv(t)
    ensures Inv(CurrentSet(t, id))
  {
    if id in t.jobs { assert t.jobs != map[]; }
    SameIdsKeepInv(t, CurrentSet(t, id));
  }

  lemma JobKeepsInv(s: State, a: Action, s': State)
    requires Inv(s.table) && Next(s, a, s') && (a.SetRunning? || a.MarkForeground? || a.ClearForeground?)
    ensures Inv(s'.table)
  {
    assert s'.table.jobs.Keys == s.table.jobs.Keys;
    SameIdsKeepInv(s.table, s'.table);
  }

  lemma TableStep(s: State, a: Action, s': State)
    requires Inv(s.table) && Next(s, a, s')
    ensures Inv(s'.table)
  {
    match a
    case Add(pgid, pid, cmdline, status) => AddKeepsInv(s.table, pgid, pid, cmdline, status);
    case Reaped(id, wait) => StatusKeepsInv(s.table, id, NewStatus(wait).0, NewStatus(wait).1);
    case Set(id, status, exit) => StatusKeepsInv(s.table, id, status, exit);
    case Evict => ReapKeepsInv(s.table, s'.table);
    case SetCurrent(id) => SetCurrentKeepsInv(s.table, id);
    case Send(_) =>
    case Take =>
    case _ => JobKeepsInv(s, a, s');
  }

  /** Only an eviction can bring current and prev to the same job. */
  lemma OnlyEvictionMerges(s: State, a: Action, s': State)
    requires Inv(s.table) && Next(s, a, s') && !a.Evict?
    requires s.table.current == 0 || s.table.current != s.table.prev
    ensures s'.table.current == 0 || s'.table.current != s'.table.prev
  {
  }

  /** In every reachable state the ids are keys in 1..nextId-1, the table is empty exactly when
      current is 0, current and prev are live ids or 0, and prev is set once there are two jobs. */
  lemma {:induction false} TableAlwaysOk(states: seq<State>, actions: seq<Action>, n: nat)
    requires Run(states, actions) && n <= |actions|
    ensures Inv(states[n].table)
  {
    if n > 0 {
      TableAlwaysOk(states, actions, n - 1);
      assert Next(states[n - 1], actions[n - 1], states[n - 1 + 1]);
      TableStep(states[n - 1], actions[n - 1], states[n]);
    }
  }

  // ---- conservation ----

  /** The job a status action is about; 0 for every other action. */
  function Target(a: Action): nat {
    if a.Set? || a.Reaped? then a.id else 0
  }

  /** A job that is in the background goes from another status to Done or Stopped. Read off
      the two tables alone. */
  predicate Enters(before: Table, after: Table, id: nat) {
    && id in before.jobs && id in after.jobs
    && !before.jobs[id].foreground
    && before.jobs[id].status != after.jobs[id].status
    && after.jobs[id].status != Running
  }

  /** The notice such a transition deserves. */
  function Deserved(before: Table, after: Table, id: nat): Notice
    requires Enters(before, after, id)
  {
    Notice(id, FlagOf(before, id), after.jobs[id].status, before.jobs[id].cmdline, after.jobs[id].exitCode)
  }

  function Transition(before: Table, after: Table, id: nat): multiset<Notice> {
    if Enters(before, after, id) then multiset{Deserved(before, after, id)} else multiset{}
  }

  /** All transitions of the first n actions. */
  function Transitions(states: seq<State>, actions: seq<Action>, n: nat): multiset<Notice>
    requires n <= |actions| && n < |states|
  {
    if n == 0 then multiset{}
    else Transitions(states, actions, n - 1) + Transition(states[n - 1].table, states[n].table, Target(actions[n - 1]))
  }

  function Accounted(s: State): multiset<Notice> {
    s.printed + multiset(s.queue) + s.sending + s.dropped
  }

  /** No action makes a job other than its target enter Done or Stopped. */
  lemma OnlyTheTarget(s: State, a: Action, s': State, id: nat)
    requires Inv(s.table) && Next(s, a, s') && Enters(s.table, s'.table, id)
    ensures (a.Set? || a.Reaped?) && id == Target(a)
  {
  }

  lemma SetAccounts(s: State, id: nat, status: Status, exit: int, s': State)
    requires SetsStatus(s, id, status, exit, s')
    ensures Accounted(s') == Accounted(s) + Transition(s.table, s'.table, id)
  {
  }

  lemma SendAccounts(s: State, n: Notice, s': State)
    requires Next(s, Send(n), s')
    ensures Accounted(s') == Accounted(s)
  {
    assert s.sending == s.sending - multiset{n} + multiset{n};
  }

  lemma TakeAccounts(s: State, s': State)
    requires Next(s, Take, s')
    ensures Accounted(s') == Accounted(s)
  {
    assert s.queue == [s.queue[0]] + s.queue[1..];
  }

  /** Every action accounts for exactly the transition it makes. */
  lemma StepAccounts(s: State, a: Action, s': State)
    requires Inv(s.table) && Next(s, a, s')
    ensures Accounted(s') == Accounted(s) + Transition(s.table, s'.table, Target(a))
  {
    if a.Set? {
      SetAccounts(s, a.id, a.status, a.exit, s');
    } else if a.Reaped? {
      SetAccounts(s, a.id, NewStatus(a.wait).0, NewStatus(a.wait).1, s');
    } else {
      assert Transition(s.table, s'.table, 0) == multiset{};
      if a.Send? {
        SendAccounts(s, a.n, s');
      } else if a.Take? {
        TakeAccounts(s, s');
      } else {
        assert s' == s.(table := s'.table);
      }
    }
  }

  lemma QueueStep(s: State, a: Action, s': State)
    requires Next(s, a, s')
    ensures |s.queue| <= QUEUE_SIZE ==> |s'.queue| <= QUEUE_SIZE
    ensures s'.dropped != s.dropped ==> |s.queue| >= QUEUE_SIZE
  {
  }

  /** Notice conservation: under every interleaving of reaper, setters, prompt and eviction, the
      background transitions into Done or Stopped so far are exactly the notices printed, queued,
      about to be sent, and dropped; and the queue never exceeds its buffer. */
  lemma {:induction false} NoticesConserved(states: seq<State>, actions: seq<Action>, n: nat)
    requires Run(states, actions) && n <= |actions|
    ensures Transitions(states, actions, n) == Accounted(states[n])
    ensures |states[n].queue| <= QUEUE_SIZE
  {
    if n > 0 {
      NoticesConserved(states, actions, n - 1);
      TableAlwaysOk(states, actions, n - 1);
      assert Next(states[n - 1], actions[n - 1], states[n - 1 + 1]);
      StepAccounts(states[n - 1], actions[n - 1], states[n]);
      QueueStep(states[n - 1], actions[n - 1], states[n]);
    }
  }

  /** A notice is dropped only while 32 notices are queued, in every run. */
  lemma DropsOnlyWhenFull(states: seq<State>, actions: seq<Action>, i: nat)
    requires Run(states, actions) && i < |actions|
    requires states[i + 1].dropped != states[i].dropped
    ensures |states[i].queue| == 32
  {
    NoticesConserved(states, actions, i);
    QueueStep(states[i], actions[i], states[i + 1]);
  }

  /** Evicting a job loses no notice: once a background job has entered Done or Stopped, its
      notice stays accounted for in every later state, whether the job is still there or not. */
  lemma {:induction false} EvictionLosesNothing(states: seq<State>, actions: seq<Action>, i: nat, m: nat, id: nat)
    requires Run(states, actions) && i < m <= |actions|
    requires Enters(states[i].table, states[i + 1].table, id)
    ensures Deserved(states[i].table, states[i + 1].table, id) in Accounted(states[m])
  {
    TableAlwaysOk(states, actions, i);
    assert Next(states[i], actions[i], states[i + 1]);
    OnlyTheTarget(states[i], actions[i], states[i + 1], id);
    NoticesConserved(states, actions, m);
    TransitionsGrow(states, actions, i, m);
  }

  lemma {:induction false} TransitionsGrow(states: seq<State>, actions: seq<Action>, i: nat, m: nat)
    requires |states| == |actions| + 1 && i < m <= |actions|
    ensures Transition(states[i].table, states[i + 1].table, Target(actions[i])) <= Transitions(states, actions, m)
    decreases m
  {
    if i + 1 < m { TransitionsGrow(states, actions, i, m - 1); }
  }

  /** The notice tells how the job now stands. */
  predicate Tells(n: Notice, t: Table, id: nat)
    requires id in t.jobs
  {
    n.id == id && n.exitCode == t.jobs[id].exitCode && n.status == t.jobs[id].status && n.cmdline == t.jobs[id].cmdline
  }

  /** What a child's end, stop or resumption does to its job: the exit code of one that exited,
      128 and the signal for one that was killed; a stopped one is Stopped, a resumed one Running. */
  lemma ReapedJob(s: State, id: nat, wait: WaitStatus, s': State)
    requires Next(s, Reaped(id, wait), s') && id in s.table.jobs
    ensures OnlyJob(s.table, s'.table, id)
    ensures var job := s'.table.jobs[id];
      match wait
      case Exited(code) => job.status == Done && job.exitCode == code
      case Signaled(sig) => job.status == Done && job.exitCode == 128 + sig
      case StoppedBy(_) => job.status == Stopped && job.exitCode == 0
      case Continued => job.status == Running && job.exitCode == 0
    ensures s'.sending == s.sending || exists n :: s'.sending == s.sending + multiset{n} && Tells(n, s'.table, id)
  {
    StatusGiven(s.table, id, NewStatus(wait).0, NewStatus(wait).1);
  }
}
