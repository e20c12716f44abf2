/** The command scheduler of idf.py (tools/idf.py:600-643). */
module Scheduler {

  type Name = string

  /** What a command declares: commands to run before it, and commands to run before it only if
      they are going to be run anyway. */
  datatype Command = Command(dependencies: seq<Name>, orderDependencies: seq<Name>)

  type Registry = map<Name, Command>

  /** A command to be run, with its own options. Tasks are compared by identity. */
  class Task {
    const name: Name
    const dependencies: seq<Name>
    const orderDependencies: seq<Name>

    constructor (name: Name, command: Command)
      ensures this.name == name && Declared(this, command)
    {
      this.name := name;
      this.dependencies := command.dependencies;
      this.orderDependencies := command.orderDependencies;
    }
  }

  ghost predicate Declared(t: Task, command: Command) {
    t.dependencies == command.dependencies && t.orderDependencies == command.orderDependencies
  }

  function Elems(ts: seq<Task>): set<Task> {
    set t | t in ts
  }

  function Names(ts: seq<Task>): set<Name> {
    set t | t in Elems(ts) :: t.name
  }

  ghost predicate NoDuplicates<T>(s: seq<T>) {
    forall i, j | 0 <= i < j < |s| :: s[i] != s[j]
  }

  /** Dependencies are known commands, each named once, and no command needs itself: `rank` is higher
      for a command than for all that goes before it. */
  ghost predicate Acyclic(reg: Registry, rank: map<Name, nat>) {
    && rank.Keys == reg.Keys
    && forall n | n in reg ::
         && NoDuplicates(reg[n].dependencies)
         && (forall d | d in reg[n].dependencies :: d in reg && rank[d] < rank[n])
         && (forall d | d in reg[n].orderDependencies :: d in reg && rank[d] < rank[n])
  }

  ghost predicate Registered(reg: Registry, ts: seq<Task>) {
    forall t | t in ts :: t.name in reg && Declared(t, reg[t.name])
  }

  // ---- What is to be run ----

  ghost predicate Closed(reg: Registry, s: set<Name>) {
    forall n, d | n in s && n in reg && d in reg[n].dependencies :: d in s
  }

  /** `n` is in every set that has the requested names and the dependencies of all its members. */
  ghost predicate Needed(reg: Registry, requested: set<Name>, n: Name) {
    forall s: set<Name> | requested <= s && Closed(reg, s) :: n in s
  }

  /** Every dependency comes before its dependent, and so does every order dependency that was requested. */
  ghost predicate Ordered(run: seq<Task>, requested: set<Name>) {
    forall k | 0 <= k < |run| ::
      && (forall d | d in run[k].dependencies :: d in Names(run[..k]))
      && (forall d | d in run[k].orderDependencies && d in requested :: d in Names(run[..k]))
  }

  ghost predicate DistinctNames(ts: seq<Task>) {
    forall i, j | 0 <= i < j < |ts| :: ts[i].name != ts[j].name
  }

  // ---- List operations ----

  /** The waiting task of each name; where several have the same name, the last of them. */
  function Dict(ts: seq<Task>): (d: map<Name, Task>)
    ensures d.Keys == Names(ts)
    ensures forall n | n in d :: d[n] in ts && d[n].name == n
  {
    if ts == [] then map[] else
    var last := ts[|ts| - 1];
    assert ts == ts[..|ts| - 1] + [last];
    Dict(ts[..|ts| - 1])[last.name := last]
  }

  /** The list without the first place of `t`. */
  function Without<T(==)>(ts: seq<T>, t: T): (r: seq<T>)
    requires t in ts
    ensures |r| == |ts| - 1
  {
    if ts[0] == t then ts[1..] else [ts[0]] + Without(ts[1..], t)
  }

  /** Takes a waiting task out of the list and puts it in front. */
  function MoveToFront<T(==)>(ts: seq<T>, t: T): (r: seq<T>)
    requires t in ts
    ensures |r| == |ts| && r[0] == t
  {
    [t] + Without(ts, t)
  }

  lemma {:induction false} WithoutElems(ts: seq<Task>, t: Task)
    requires t in ts
    ensures Elems([t] + Without(ts, t)) == Elems(ts)
  {
    assert ts == [ts[0]] + ts[1..];
    Cons(ts[0], ts[1..]);
    Cons(t, Without(ts, t));
    if ts[0] != t {
      WithoutElems(ts[1..], t);
      Cons(t, Without(ts[1..], t));
      Cons(ts[0], Without(ts[1..], t));
    }
  }

  /** Puts a task in front, whether it waits already or is a new one. */
  function ToFront(ts: seq<Task>, t: Task): seq<Task> {
    if t in ts then MoveToFront(ts, t) else [t] + ts
  }

  /** Puts the tasks of these names in front, one after the other; names that `tasks` does not have are
      passed over. */
  function Pull(ts: seq<Task>, names: seq<Name>, tasks: map<Name, Task>): seq<Task> {
    if names == [] then ts else
    var last := names[|names| - 1];
    var pulled := Pull(ts, names[..|names| - 1], tasks);
    if last in tasks then ToFront(pulled, tasks[last]) else pulled
  }

  lemma {:induction false} PullAgrees(ts: seq<Task>, names: seq<Name>, tasks: map<Name, Task>, n: Name, t: Task)
    requires n !in names
    ensures Pull(ts, names, tasks[n := t]) == Pull(ts, names, tasks)
  {
    if names != [] {
      PullAgrees(ts, names[..|names| - 1], tasks, n, t);
    }
  }

  lemma PullNext(ts: seq<Task>, names: seq<Name>, k: nat, tasks: map<Name, Task>)
    requires k < |names|
    ensures var pulled := Pull(ts, names[..k], tasks);
            Pull(ts, names[..k + 1], tasks) == if names[k] in tasks then ToFront(pulled, tasks[names[k]]) else pulled
  {
    assert names[..k + 1][..k] == names[..k];
  }

  lemma Cons(t: Task, ts: seq<Task>)
    ensures Elems([t] + ts) == {t} + Elems(ts) && Names([t] + ts) == {t.name} + Names(ts)
  {
    assert Elems([t] + ts) == {t} + Elems(ts);
  }

  lemma Member(t: Task, ts: seq<Task>)
    ensures t in ts <==> t in Elems(ts)
    ensures t in ts ==> t.name in Names(ts)
  {
  }

  // ---- The work list ----

  /** What the loop keeps of the list `tasks` still to be looked at and the list `run` so far. */
  ghost predicate Inv(reg: Registry, requested: set<Name>, tasks: seq<Task>, run: seq<Task>) {
    && Registered(reg, tasks) && Registered(reg, run)
    && DistinctNames(run) && Ordered(run, requested)
    && requested <= Names(tasks) + Names(run)
    && (forall n | n in Names(tasks) + Names(run) :: Needed(reg, requested, n))
  }

  /** The commands neither waiting nor run. */
  ghost function Unseen(reg: Registry, tasks: seq<Task>, run: seq<Task>): set<Name> {
    reg.Keys - Names(tasks) - Names(run)
  }

  /** Either the same commands wait, or one that did not wait before. */
  ghost predicate SameNamesOrFewerUnseen(reg: Registry, before: seq<Task>, after: seq<Task>, run: seq<Task>) {
    || (Names(after) == Names(before) && |after| == |before|)
    || Unseen(reg, after, run) < Unseen(reg, before, run)
  }

  lemma NeededStep(reg: Registry, requested: set<Name>, n: Name, d: Name)
    requires Needed(reg, requested, n) && n in reg && d in reg[n].dependencies
    ensures Needed(reg, requested, d)
  {
    forall s: set<Name> | requested <= s && Closed(reg, s)
      ensures d in s
    {
      assert n in s;
    }
  }

  lemma MoveKeeps(reg: Registry, requested: set<Name>, tasks: seq<Task>, run: seq<Task>, t: Task)
    requires Inv(reg, requested, tasks, run) && t in tasks
    ensures Inv(reg, requested, MoveToFront(tasks, t), run)
    ensures Names(MoveToFront(tasks, t)) == Names(tasks) && Elems(MoveToFront(tasks, t)) == Elems(tasks)
  {
    var moved := MoveToFront(tasks, t);
    WithoutElems(tasks, t);
    assert forall x | x in moved :: x in Elems(moved);
  }

  lemma AddKeeps(reg: Registry, requested: set<Name>, tasks: seq<Task>, run: seq<Task>, t: Task)
    requires Inv(reg, requested, tasks, run) && Needed(reg, requested, t.name)
    requires t.name in reg && Declared(t, reg[t.name]) && t.name !in Names(tasks) + Names(run)
    ensures Inv(reg, requested, [t] + tasks, run)
    ensures Unseen(reg, [t] + tasks, run) < Unseen(reg, tasks, run)
  {
    hide Needed;
    Cons(t, tasks);
    assert t.name in Unseen(reg, tasks, run) && t.name !in Unseen(reg, [t] + tasks, run);
  }

  /** What is known of the dependencies of a task in the list. */
  lemma DependenciesKnown(reg: Registry, requested: set<Name>, tasks: seq<Task>, run: seq<Task>, t: Task,
                          rank: map<Name, nat>)
    requires Acyclic(reg, rank) && Inv(reg, requested, tasks, run) && t in tasks
    ensures t.name in reg && NoDuplicates(t.dependencies)
    ensures forall d | d in t.dependencies :: d in reg && rank[d] < rank[t.name] && Needed(reg, requested, d)
    ensures forall d | d in t.orderDependencies :: d in reg && rank[d] < rank[t.name]
  {
    hide Needed;
    Member(t, tasks);
    forall d | d in t.dependencies
      ensures Needed(reg, requested, d)
    {
      NeededStep(reg, requested, t.name, d);
    }
  }

  lemma StillFewer(reg: Registry, a: seq<Task>, b: seq<Task>, c: seq<Task>, run: seq<Task>)
    requires SameNamesOrFewerUnseen(reg, a, b, run) && SameNamesOrFewerUnseen(reg, b, c, run)
    ensures SameNamesOrFewerUnseen(reg, a, c, run)
  {
  }

  /** The front task's dependencies, the first `k` of which have been looked at: what was added to
      the list is one of them and did not wait or run before. */
  ghost predicate Brought(queue: seq<Task>, tasks: seq<Task>, run: seq<Task>, deps: seq<Name>) {
    && Elems(queue) <= Elems(tasks)
    && forall t | t in Elems(tasks) && t !in Elems(queue) :: t.name in deps && t.name !in Names(queue) + Names(run)
  }

  /** The tasks that are put in front for the dependencies `deps`: for each that has not been run, the last
      one waiting, or a new one. */
  ghost predicate Supplies(queue: seq<Task>, run: seq<Task>, deps: seq<Name>, supply: map<Name, Task>) {
    && (forall n :: n in supply <==> n in deps && n !in Names(run))
    && (forall n | n in supply :: supply[n].name == n)
    && (forall n | n in supply && n in Names(queue) :: supply[n] == Dict(queue)[n])
  }

  /** Puts the dependencies of the front task in front of it. */
  method BringDependencies(reg: Registry, ghost requested: set<Name>, queue: seq<Task>, run: seq<Task>,
                           ghost rank: map<Name, nat>)
    returns (tasks: seq<Task>, processed: bool, ghost supply: map<Name, Task>)
    requires Acyclic(reg, rank) && queue != [] && Inv(reg, requested, queue, run)
    ensures Inv(reg, requested, tasks, run) && Brought(queue, tasks, run, queue[0].dependencies)
    ensures Elems(queue) <= Elems(tasks)
    ensures processed ==> tasks == queue
    ensures processed <==> forall d | d in queue[0].dependencies :: d in Names(run)
    ensures !processed ==> tasks != [] && queue[0].name in rank && tasks[0].name in rank
    ensures !processed ==> rank[tasks[0].name] < rank[queue[0].name]
    ensures SameNamesOrFewerUnseen(reg, queue, tasks, run)
    ensures Supplies(queue, run, queue[0].dependencies, supply) && tasks == Pull(queue, queue[0].dependencies, supply)
  {
    hide Inv, Needed, Names, MoveToFront, Dict, Unseen, Pull, ToFront, Supplies;
    var task := queue[0];
    var dict := Dict(queue);
    DependenciesKnown(reg, requested, queue, run, task, rank);
    tasks, processed, supply := queue, true, map[];
    SupplyNone(queue, run);
    for k := 0 to |task.dependencies|
      invariant Inv(reg, requested, tasks, run) && Brought(queue, tasks, run, task.dependencies[..k])
      invariant processed ==> tasks == queue
      invariant processed <==> forall d | d in task.dependencies[..k] :: d in Names(run)
      invariant !processed ==> tasks != [] && tasks[0].name in reg && rank[tasks[0].name] < rank[task.name]
      invariant SameNamesOrFewerUnseen(reg, queue, tasks, run)
      invariant Supplies(queue, run, task.dependencies[..k], supply)
      invariant tasks == Pull(queue, task.dependencies[..k], supply)
    {
      var dep := task.dependencies[k];
      if dep !in Names(run) {
        var depTask;
        if dep in dict {
          depTask := dict[dep];
          Member(depTask, queue);
          Member(depTask, tasks);
          MoveKeeps(reg, requested, tasks, run, depTask);
          StillFewer(reg, queue, tasks, MoveToFront(tasks, depTask), run);
        } else {
          depTask := new Task(dep, reg[dep]);
          NotBrought(queue, tasks, run, task.dependencies, k);
          Member(depTask, tasks);
          AddKeeps(reg, requested, tasks, run, depTask);
          StillFewer(reg, queue, tasks, [depTask] + tasks, run);
          Cons(depTask, tasks);
        }
        SupplyNext(queue, run, task.dependencies, k, supply, depTask);
        supply := supply[dep := depTask];
        ToFrontIs(tasks, depTask);
        tasks := if dep in dict then MoveToFront(tasks, depTask) else [depTask] + tasks;
        processed := false;
      } else {
        SupplySame(queue, run, task.dependencies, k, supply);
      }
    }
    assert task.dependencies[..|task.dependencies|] == task.dependencies;
  }

  lemma SupplyNone(queue: seq<Task>, run: seq<Task>)
    ensures Supplies(queue, run, [], map[]) && Pull(queue, [], map[]) == queue
  {
  }

  lemma SupplyNext(queue: seq<Task>, run: seq<Task>, deps: seq<Name>, k: nat, supply: map<Name, Task>, t: Task)
    requires NoDuplicates(deps) && k < |deps| && Supplies(queue, run, deps[..k], supply)
    requires t.name == deps[k] && deps[k] !in Names(run)
    requires deps[k] in Names(queue) ==> t == Dict(queue)[deps[k]]
    ensures Supplies(queue, run, deps[..k + 1], supply[deps[k] := t])
    ensures Pull(queue, deps[..k + 1], supply[deps[k] := t]) == ToFront(Pull(queue, deps[..k], supply), t)
  {
    hide Names, Dict, ToFront, Pull;
    PullAgrees(queue, deps[..k], supply, deps[k], t);
    PullNext(queue, deps, k, supply[deps[k] := t]);
    assert deps[..k + 1] == deps[..k] + [deps[k]];
  }

  lemma SupplySame(queue: seq<Task>, run: seq<Task>, deps: seq<Name>, k: nat, supply: map<Name, Task>)
    requires k < |deps| && Supplies(queue, run, deps[..k], supply) && deps[k] in Names(run)
    ensures Supplies(queue, run, deps[..k + 1], supply)
    ensures Pull(queue, deps[..k + 1], supply) == Pull(queue, deps[..k], supply)
  {
    PullNext(queue, deps, k, supply);
    assert deps[..k + 1] == deps[..k] + [deps[k]];
  }

  lemma ToFrontIs(ts: seq<Task>, t: Task)
    ensures ToFront(ts, t) == if t in ts then MoveToFront(ts, t) else [t] + ts
  {
  }

  lemma NotBrought(queue: seq<Task>, tasks: seq<Task>, run: seq<Task>, deps: seq<Name>, k: nat)
    requires NoDuplicates(deps) && k < |deps| && Brought(queue, tasks, run, deps[..k])
    requires deps[k] !in Names(queue)
    ensures deps[k] !in Names(tasks)
  {
    forall t | t in Elems(tasks)
      ensures t.name != deps[k]
    {
      Member(t, queue);
    }
  }

  /** Moves the order dependencies of `queue`'s front task that wait in `queue` to the front of `before`. */
  method BringOrderDependencies(reg: Registry, ghost requested: set<Name>, queue: seq<Task>, before: seq<Task>,
                                run: seq<Task>, ok: bool, ghost rank: map<Name, nat>)
    returns (tasks: seq<Task>, processed: bool)
    requires Acyclic(reg, rank) && queue != [] && Inv(reg, requested, queue, run) && Inv(reg, requested, before, run)
    requires Elems(queue) <= Elems(before) && (ok ==> before == queue)
    requires !ok ==> before != [] && before[0].name in rank && queue[0].name in rank
                     && rank[before[0].name] < rank[queue[0].name]
    ensures Inv(reg, requested, tasks, run) && Elems(tasks) == Elems(before)
    ensures Names(tasks) == Names(before) && |tasks| == |before|
    ensures processed ==> ok && tasks == queue
    ensures processed <==> ok && forall d | d in queue[0].orderDependencies :: d in Names(queue) ==> d in Names(run)
    ensures !processed ==> tasks != [] && queue[0].name in rank && tasks[0].name in rank
    ensures !processed ==> rank[tasks[0].name] < rank[queue[0].name]
    ensures tasks == Pull(before, queue[0].orderDependencies, Waiting(queue, run))
  {
    hide Inv, Needed, Names, MoveToFront, Dict, Pull, ToFront;
    var task := queue[0];
    var dict := Dict(queue);
    DependenciesKnown(reg, requested, queue, run, task, rank);
    tasks, processed := before, ok;
    PullNone(before, Waiting(queue, run));
    for k := 0 to |task.orderDependencies|
      invariant Inv(reg, requested, tasks, run) && Elems(tasks) == Elems(before)
      invariant Names(tasks) == Names(before) && |tasks| == |before|
      invariant processed ==> ok && tasks == queue
      invariant processed <==>
                  ok && forall d | d in task.orderDependencies[..k] :: d in Names(queue) ==> d in Names(run)
      invariant !processed ==> tasks != [] && tasks[0].name in reg && rank[tasks[0].name] < rank[task.name]
      invariant tasks == Pull(before, task.orderDependencies[..k], Waiting(queue, run))
    {
      var dep := task.orderDependencies[k];
      PullNext(before, task.orderDependencies, k, Waiting(queue, run));
      if dep in dict && dep !in Names(run) {
        Member(dict[dep], queue);
        Member(dict[dep], tasks);
        MoveKeeps(reg, requested, tasks, run, dict[dep]);
        ToFrontIs(tasks, dict[dep]);
        tasks := MoveToFront(tasks, dict[dep]);
        processed := false;
      }
    }
    assert task.orderDependencies[..|task.orderDependencies|] == task.orderDependencies;
  }

  lemma PullNone(ts: seq<Task>, tasks: map<Name, Task>)
    ensures Pull(ts, [], tasks) == ts
  {
  }

  /** The last waiting task of each name that has not been run. */
  ghost function Waiting(queue: seq<Task>, run: seq<Task>): map<Name, Task> {
    map n | n in Names(queue) && n !in Names(run) :: Dict(queue)[n]
  }

  lemma Snoc(ts: seq<Task>, t: Task)
    ensures Elems(ts + [t]) == Elems(ts) + {t} && Names(ts + [t]) == Names(ts) + {t.name}
  {
    assert Elems(ts + [t]) == Elems(ts) + {t};
  }

  lemma Front(ts: seq<Task>)
    requires ts != []
    ensures Elems(ts) == {ts[0]} + Elems(ts[1..]) && Names(ts) == {ts[0].name} + Names(ts[1..])
  {
    assert ts == [ts[0]] + ts[1..];
    Cons(ts[0], ts[1..]);
  }

  /** The front task has nothing left to wait for. */
  ghost predicate Ready(tasks: seq<Task>, run: seq<Task>)
    requires tasks != []
  {
    && (forall d | d in tasks[0].dependencies :: d in Names(run))
    && (forall d | d in tasks[0].orderDependencies :: d in Names(tasks) ==> d in Names(run))
  }

  /** A task may be run once all it depends on has been. */
  lemma RunGrows(requested: set<Name>, run: seq<Task>, t: Task)
    requires DistinctNames(run) && Ordered(run, requested) && t.name !in Names(run)
    requires forall d | d in t.dependencies :: d in Names(run)
    requires forall d | d in t.orderDependencies && d in requested :: d in Names(run)
    ensures DistinctNames(run + [t]) && Ordered(run + [t], requested)
  {
    forall k | 0 <= k < |run|
      ensures (run + [t])[..k] == run[..k] && run[k].name != t.name
    {
      Member(run[k], run);
    }
    assert (run + [t])[..|run|] == run;
  }

  /** A front task with nothing left to wait for may go, and is run unless one of its name was. */
  lemma PopKeeps(reg: Registry, requested: set<Name>, tasks: seq<Task>, run: seq<Task>)
    requires tasks != [] && Inv(reg, requested, tasks, run)
    requires Ready(tasks, run)
    ensures var after := if tasks[0].name in Names(run) then run else run + [tasks[0]];
            Inv(reg, requested, tasks[1..], after) && Unseen(reg, tasks[1..], after) == Unseen(reg, tasks, run)
  {
    hide Needed, DistinctNames, Ordered;
    Front(tasks);
    if tasks[0].name !in Names(run) {
      Snoc(run, tasks[0]);
      RunGrows(requested, run, tasks[0]);
    }
  }

  /** A list that can be run as it stands. */
  ghost predicate Executable(ts: seq<Task>) {
    DistinctNames(ts) && Ordered(ts, Names(ts))
  }

  lemma {:induction false} ElemsOf(ts: seq<Task>, t: Task)
    requires t in Elems(ts)
    ensures exists i :: 0 <= i < |ts| && ts[i] == t
  {
  }

  lemma NamesOfParts(run: seq<Task>, tasks: seq<Task>)
    ensures Names(run + tasks) == Names(run) + Names(tasks)
  {
    assert Elems(run + tasks) == Elems(run) + Elems(tasks);
  }

  lemma NewName(ts: seq<Task>, k: nat)
    requires DistinctNames(ts) && k < |ts|
    ensures ts[k].name !in Names(ts[..k])
  {
    forall t | t in Elems(ts[..k])
      ensures t.name != ts[k].name
    {
      ElemsOf(ts[..k], t);
      var i :| 0 <= i < k && ts[..k][i] == t;
      assert ts[i] == t;
    }
  }

  /** What has to go before a task of such a list is in front of it. */
  lemma InOrderAt(ts: seq<Task>, k: nat)
    requires Executable(ts) && k < |ts|
    ensures ts[k].name !in Names(ts[..k])
    ensures forall d | d in ts[k].dependencies :: d in Names(ts[..k])
    ensures forall d | d in ts[k].orderDependencies && d in Names(ts) :: d in Names(ts[..k])
  {
    NewName(ts, k);
  }

  lemma NextIsReady(ts: seq<Task>, run: seq<Task>, tasks: seq<Task>)
    requires Executable(ts) && run + tasks == ts && tasks != []
    ensures tasks[0].name !in Names(run) && Ready(tasks, run)
    ensures (run + [tasks[0]]) + tasks[1..] == ts
  {
    hide Names, Elems, DistinctNames, Ordered, Executable;
    var k := |run|;
    assert ts[k] == tasks[0] && ts[..k] == run;
    InOrderAt(ts, k);
    NamesOfParts(run, tasks);
    assert tasks == [tasks[0]] + tasks[1..];
  }

  lemma RunIsNeeded(reg: Registry, requested: set<Name>, run: seq<Task>)
    requires Inv(reg, requested, [], run)
    ensures forall n :: n in Names(run) <==> Needed(reg, requested, n)
  {
    assert Names([]) == {};
    assert Closed(reg, Names(run)) by {
      forall n, d | n in Names(run) && n in reg && d in reg[n].dependencies
        ensures d in Names(run)
      {
        var t :| t in Elems(run) && t.name == n;
        var k :| 0 <= k < |run| && run[k] == t;
        assert d in run[k].dependencies;
        var u :| u in Elems(run[..k]) && u.name == d;
        Member(u, run);
      }
    }
  }

  ghost function Rank(rank: map<Name, nat>, tasks: seq<Task>): nat {
    if tasks != [] && tasks[0].name in rank then rank[tasks[0].name] else 0
  }

  /** One turn leaves fewer commands unseen, or a shorter list, or a front task that less depends on. */
  ghost predicate Progress(reg: Registry, rank: map<Name, nat>, tasks: seq<Task>, run: seq<Task>,
                           tasks': seq<Task>, run': seq<Task>) {
    || Unseen(reg, tasks', run') < Unseen(reg, tasks, run)
    || (Unseen(reg, tasks', run') == Unseen(reg, tasks, run) && |tasks'| < |tasks|)
    || (Unseen(reg, tasks', run') == Unseen(reg, tasks, run) && |tasks'| == |tasks|
        && Rank(rank, tasks') < Rank(rank, tasks))
  }

  /** The requested tasks themselves are used, not defaults of the same name. */
  ghost predicate KeepsRequested(initial: seq<Task>, ts: set<Task>) {
    forall t | t in ts && t.name in Names(initial) :: t in Elems(initial)
  }

  lemma BroughtKeepsRequested(initial: seq<Task>, queue: seq<Task>, tasks: seq<Task>, run: seq<Task>, deps: seq<Name>)
    requires KeepsRequested(initial, Elems(queue)) && Brought(queue, tasks, run, deps)
    requires Names(initial) <= Names(queue) + Names(run)
    ensures KeepsRequested(initial, Elems(tasks))
  {
  }

  lemma MoveProgresses(reg: Registry, rank: map<Name, nat>, queue: seq<Task>, brought: seq<Task>, tasks: seq<Task>,
                       run: seq<Task>)
    requires SameNamesOrFewerUnseen(reg, queue, brought, run)
    requires Names(tasks) == Names(brought) && |tasks| == |brought|
    requires queue != [] && tasks != [] && queue[0].name in rank && tasks[0].name in rank
    requires rank[tasks[0].name] < rank[queue[0].name]
    ensures Progress(reg, rank, queue, run, tasks, run)
  {
  }

  lemma Popped(reg: Registry, initial: seq<Task>, queue: seq<Task>, run: seq<Task>, rank: map<Name, nat>)
    requires queue != [] && Inv(reg, Names(initial), queue, run)
    requires KeepsRequested(initial, Elems(queue)) && KeepsRequested(initial, Elems(run))
    requires Ready(queue, run)
    ensures var after := if queue[0].name in Names(run) then run else run + [queue[0]];
            && Inv(reg, Names(initial), queue[1..], after) && Progress(reg, rank, queue, run, queue[1..], after)
            && KeepsRequested(initial, Elems(queue[1..])) && KeepsRequested(initial, Elems(after))
  {
    hide Inv, Unseen, Names;
    PopKeeps(reg, Names(initial), queue, run);
    Front(queue);
    Snoc(run, queue[0]);
  }

  /** The lists after a turn, and the tasks it put in front for the front task's dependencies. */
  datatype Moment = Moment(tasks: seq<Task>, run: seq<Task>, supply: map<Name, Task>)

  /** One turn: a front task that is ready is taken off, and run unless one of its name has been. Else
      its dependencies are put in front of it, and then its waiting order dependencies. */
  ghost predicate TurnOf(m: Moment, m': Moment) {
    m.tasks != [] && Turned(m.tasks, m.run, m')
  }

  ghost predicate Turned(tasks: seq<Task>, run: seq<Task>, after: Moment)
    requires tasks != []
  {
    var front := tasks[0];
    if Ready(tasks, run) then
      && after.tasks == tasks[1..]
      && after.run == if front.name in Names(run) then run else run + [front]
    else
      && after.run == run && Supplies(tasks, run, front.dependencies, after.supply)
      && after.tasks == Pull(Pull(tasks, front.dependencies, after.supply), front.orderDependencies, Waiting(tasks, run))
  }

  /** The moments of the loop so far. */
  ghost predicate History(reg: Registry, requested: set<Name>, hist: seq<Moment>) {
    && hist != []
    && (forall j | 0 <= j < |hist| :: Inv(reg, requested, hist[j].tasks, hist[j].run))
    && (forall j | 0 <= j < |hist| - 1 :: TurnOf(hist[j], hist[j + 1]))
  }

  /** A whole run of the loop, to the empty list. */
  ghost predicate Trace(reg: Registry, requested: set<Name>, hist: seq<Moment>) {
    hist != [] && History(reg, requested, hist) && hist[|hist| - 1].tasks == []
  }

  lemma HistoryGrows(reg: Registry, requested: set<Name>, hist: seq<Moment>, m: Moment)
    requires History(reg, requested, hist) && hist != []
    requires TurnOf(hist[|hist| - 1], m) && Inv(reg, requested, m.tasks, m.run)
    ensures History(reg, requested, hist + [m]) && (hist + [m])[0] == hist[0]
  {
    hide Inv, TurnOf;
  }

  lemma RequestedAreThere(reg: Registry, initial: seq<Task>, queue: seq<Task>, run: seq<Task>)
    requires Inv(reg, Names(initial), queue, run)
    ensures Names(initial) <= Names(queue) + Names(run)
  {
    hide Names, Needed;
  }

  /** One turn of the loop. */
  method Turn(reg: Registry, initial: seq<Task>, queue: seq<Task>, run: seq<Task>, ghost rank: map<Name, nat>)
    returns (tasks: seq<Task>, run': seq<Task>, ghost supply: map<Name, Task>)
    requires Acyclic(reg, rank) && queue != [] && Inv(reg, Names(initial), queue, run)
    requires KeepsRequested(initial, Elems(queue)) && KeepsRequested(initial, Elems(run))
    ensures Inv(reg, Names(initial), tasks, run') && Progress(reg, rank, queue, run, tasks, run')
    ensures KeepsRequested(initial, Elems(tasks)) && KeepsRequested(initial, Elems(run'))
    ensures Turned(queue, run, Moment(tasks, run', supply))
  {
    RequestedAreThere(reg, initial, queue, run);
    hide Inv, Needed, Names, Elems, Unseen, SameNamesOrFewerUnseen, Brought, KeepsRequested, Acyclic, Progress;
    hide Supplies, Pull, Waiting, MoveToFront, Rank;
    var brought, ready;
    brought, ready, supply := BringDependencies(reg, Names(initial), queue, run, rank);
    BroughtKeepsRequested(initial, queue, brought, run, queue[0].dependencies);
    var processed;
    tasks, processed := BringOrderDependencies(reg, Names(initial), queue, brought, run, ready, rank);
    run' := run;
    if processed {
      Popped(reg, initial, queue, run, rank);
      tasks := tasks[1..];
      if queue[0].name !in Names(run) {
        run' := run + [queue[0]];
      }
    } else {
      MoveProgresses(reg, rank, queue, brought, tasks, run);
    }
  }

  lemma EndsWell(reg: Registry, initial: seq<Task>, run: seq<Task>)
    requires Inv(reg, Names(initial), [], run)
    ensures DistinctNames(run) && Ordered(run, Names(initial)) && run + [] == run
    ensures forall n :: n in Names(run) <==> Needed(reg, Names(initial), n)
  {
    RunIsNeeded(reg, Names(initial), run);
  }

  lemma Begins(reg: Registry, initial: seq<Task>)
    requires Registered(reg, initial)
    ensures Inv(reg, Names(initial), initial, []) && KeepsRequested(initial, Elems(initial))
    ensures KeepsRequested(initial, Elems([])) && [] + initial == initial
    ensures History(reg, Names(initial), [Moment(initial, [], map[])])
  {
  }

  /** The loop of `execute_tasks`. Registered commands go by their own names. The ghost result is the
      history of the two lists. */
  method ExecuteTasks(reg: Registry, initial: seq<Task>, ghost rank: map<Name, nat>)
    returns (run: seq<Task>, ghost hist: seq<Moment>)
    requires Acyclic(reg, rank) && Registered(reg, initial)
    ensures DistinctNames(run)
    ensures forall n :: n in Names(run) <==> Needed(reg, Names(initial), n)
    ensures Ordered(run, Names(initial))
    ensures KeepsRequested(initial, Elems(run))
    ensures Executable(initial) ==> run == initial
    ensures Trace(reg, Names(initial), hist) && hist[0] == Moment(initial, [], map[]) && hist[|hist| - 1].run == run
  {
    Begins(reg, initial);
    hide Inv, Names, Elems, KeepsRequested, Turned, Unseen, Needed, Ordered, DistinctNames, Executable, Acyclic, Ready;
    hide History, Rank, Registered;
    var tasks := initial;
    run := [];
    hist := [Moment(initial, [], map[])];
    while tasks != []
      invariant Inv(reg, Names(initial), tasks, run)
      invariant KeepsRequested(initial, Elems(tasks)) && KeepsRequested(initial, Elems(run))
      invariant Executable(initial) ==> run + tasks == initial
      invariant History(reg, Names(initial), hist) && hist != []
      invariant hist[0] == Moment(initial, [], map[]) && hist[|hist| - 1].tasks == tasks && hist[|hist| - 1].run == run
      decreases Unseen(reg, tasks, run), |tasks|, Rank(rank, tasks)
    {
      if Executable(initial) {
        NextIsReady(initial, run, tasks);
      }
      ghost var supply;
      tasks, run, supply := Turn(reg, initial, tasks, run, rank);
      HistoryGrows(reg, Names(initial), hist, Moment(tasks, run, supply));
      hist := hist + [Moment(tasks, run, supply)];
    }
    assert tasks == [];
    EndsWell(reg, initial, run);
  }
}
