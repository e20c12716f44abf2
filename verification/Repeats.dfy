/** Which of several requested tasks of one name idf.py runs (tools/idf.py:558-643). */
module Repeats {
  import opened Scheduler
  import DivMod

  // ---- The tasks of one name ----

  /** The tasks of name `n`, in order. */
  function Occ(ts: seq<Task>, n: Name): (o: seq<Task>)
    ensures forall t | t in o :: t in ts && t.name == n
    ensures o == [] <==> n !in Names(ts)
  {
    if ts == [] then []
    else
      Front(ts);
      if ts[0].name == n then [ts[0]] + Occ(ts[1..], n) else Occ(ts[1..], n)
  }

  lemma {:induction false} OccHas(ts: seq<Task>, t: Task)
    requires t in ts
    ensures t in Occ(ts, t.name)
  {
    if ts[0] != t {
      OccHas(ts[1..], t);
    }
  }

  lemma {:induction false} OccWithout(ts: seq<Task>, t: Task, n: Name)
    requires t in ts
    ensures t.name == n ==> t in Occ(ts, n) && Occ(Without(ts, t), n) == Without(Occ(ts, n), t)
    ensures t.name != n ==> Occ(Without(ts, t), n) == Occ(ts, n)
  {
    if ts[0] == t {
    } else {
      OccWithout(ts[1..], t, n);
      assert Without(ts, t)[1..] == Without(ts[1..], t);
      if ts[0].name == n {
        assert Occ(ts, n)[1..] == Occ(ts[1..], n);
      }
    }
  }

  lemma OccToFront(ts: seq<Task>, t: Task, n: Name)
    ensures t.name != n ==> Occ(ToFront(ts, t), n) == Occ(ts, n)
    ensures t.name == n && t in ts ==> t in Occ(ts, n) && Occ(ToFront(ts, t), n) == MoveToFront(Occ(ts, n), t)
  {
    if t in ts {
      OccWithout(ts, t, n);
      assert MoveToFront(ts, t)[1..] == Without(ts, t);
    } else {
      assert ([t] + ts)[1..] == ts;
    }
  }

  lemma {:induction false} LastIs(ts: seq<Task>, n: Name)
    requires n in Names(ts)
    ensures Occ(ts, n) != [] && Dict(ts)[n] == Occ(ts, n)[|Occ(ts, n)| - 1]
  {
    var k := |ts| - 1;
    Snoc(ts[..k], ts[k]);
    assert ts[..k] + [ts[k]] == ts;
    hide Names, Elems, Occ;
    OccSnoc(ts[..k], ts[k], n);
    if ts[k].name != n {
      LastIs(ts[..k], n);
    }
  }

  lemma {:induction false} OccSnoc(ts: seq<Task>, t: Task, n: Name)
    ensures Occ(ts + [t], n) == if t.name == n then Occ(ts, n) + [t] else Occ(ts, n)
  {
    hide Names, Elems;
    if ts == [] {
      assert (ts + [t])[1..] == [];
    } else {
      OccSnoc(ts[1..], t, n);
      assert (ts + [t])[1..] == ts[1..] + [t];
    }
  }

  lemma FrontAgain<T>(o: seq<T>, t: T)
    requires t in o
    ensures MoveToFront(MoveToFront(o, t), t) == MoveToFront(o, t)
  {
    assert MoveToFront(o, t)[1..] == Without(o, t);
  }

  ghost predicate Named(tasks: map<Name, Task>) {
    forall n | n in tasks :: tasks[n].name == n
  }

  /** Putting tasks in front moves the one task of name `n` among them before the others of that name. */
  lemma {:induction false} OccPull(ts: seq<Task>, names: seq<Name>, tasks: map<Name, Task>, n: Name)
    requires Named(tasks) && (n in names && n in tasks ==> tasks[n] in ts)
    ensures n in tasks && n in names ==> tasks[n] in Occ(ts, n)
    ensures Occ(Pull(ts, names, tasks), n)
         == if n in names && n in tasks then MoveToFront(Occ(ts, n), tasks[n]) else Occ(ts, n)
  {
    if names != [] {
      var k := |names| - 1;
      var last, pulled := names[k], Pull(ts, names[..k], tasks);
      assert names == names[..k] + [last];
      OccPull(ts, names[..k], tasks, n);
      if n in names && n in tasks {
        OccHas(ts, tasks[n]);
      }
      if last in tasks {
        if last == n {
          assert tasks[n] in Occ(pulled, n);
          FrontAgain(Occ(ts, n), tasks[n]);
        }
        OccToFront(pulled, tasks[last], n);
      }
    }
  }

  /** The last one moved to the front. */
  function Rotated<T(==)>(o: seq<T>): (r: seq<T>)
    requires o != []
    ensures |r| == |o| && r[0] == o[|o| - 1]
  {
    MoveToFront(o, o[|o| - 1])
  }

  function RotatedBy<T(==)>(o: seq<T>, c: nat): (r: seq<T>)
    requires o != []
    ensures |r| == |o|
    decreases c
  {
    if c == 0 then o else RotatedBy(Rotated(o), c - 1)
  }

  // ---- Moves ----

  /** In this turn a waiting task of name `n` is put in front for the front task. */
  ghost predicate Moves(m: Moment, n: Name) {
    && m.tasks != [] && n in Names(m.tasks) && n !in Names(m.run)
    && (n in m.tasks[0].dependencies || n in m.tasks[0].orderDependencies)
  }

  /** In how many turns that happens. */
  ghost function MoveCount(hist: seq<Moment>, n: Name): nat {
    if hist == [] then 0 else (if Moves(hist[0], n) then 1 else 0) + MoveCount(hist[1..], n)
  }

  lemma OccTurn(m: Moment, m': Moment, n: Name)
    requires TurnOf(m, m') && !Ready(m.tasks, m.run) && n in Names(m.tasks) && n !in Names(m.run)
    ensures Occ(m.tasks, n) != []
    ensures Occ(m'.tasks, n) == if Moves(m, n) then Rotated(Occ(m.tasks, n)) else Occ(m.tasks, n)
  {
    var front, last := m.tasks[0], Dict(m.tasks)[n];
    var pulled := Pull(m.tasks, front.dependencies, m'.supply);
    LastIs(m.tasks, n);
    OccPull(m.tasks, front.dependencies, m'.supply, n);
    var waiting := Waiting(m.tasks, m.run);
    assert n in waiting && waiting[n] == last;
    assert last in Occ(m.tasks, n);
    assert last in Occ(pulled, n);
    OccPull(pulled, front.orderDependencies, waiting, n);
    FrontAgain(Occ(m.tasks, n), last);
  }

  lemma TraceTail(reg: Registry, requested: set<Name>, hist: seq<Moment>)
    requires Trace(reg, requested, hist) && |hist| > 1
    ensures Trace(reg, requested, hist[1..]) && TurnOf(hist[0], hist[1])
  {
    hide Inv, TurnOf;
  }

  lemma RunStays(m: Moment, m': Moment)
    requires TurnOf(m, m')
    ensures m.run <= m'.run && Names(m.run) <= Names(m'.run)
  {
    if Ready(m.tasks, m.run) {
      Snoc(m.run, m.tasks[0]);
    }
  }

  lemma {:induction false} NoMovesOnceRun(reg: Registry, requested: set<Name>, hist: seq<Moment>, n: Name)
    requires Trace(reg, requested, hist) && n in Names(hist[0].run)
    ensures MoveCount(hist, n) == 0 && hist[0].run <= hist[|hist| - 1].run
    decreases |hist|
  {
    hide Inv, TurnOf;
    if |hist| > 1 {
      TraceTail(reg, requested, hist);
      RunStays(hist[0], hist[1]);
      NoMovesOnceRun(reg, requested, hist[1..], n);
    }
  }

  lemma OccPop(m: Moment, m': Moment, n: Name)
    requires TurnOf(m, m') && Ready(m.tasks, m.run) && n in Names(m.tasks) && n !in Names(m.run)
    ensures !Moves(m, n) && Occ(m.tasks, n) != []
    ensures m.tasks[0].name == n ==> Occ(m.tasks, n)[0] in m'.run && n in Names(m'.run)
    ensures m.tasks[0].name != n ==> Occ(m'.tasks, n) == Occ(m.tasks, n) && n !in Names(m'.run)
  {
    Snoc(m.run, m.tasks[0]);
  }

  /** The task of name `n` that is run is the one that the moves have brought to the front of its equals. */
  lemma {:induction false} RunsRotated(reg: Registry, requested: set<Name>, hist: seq<Moment>, n: Name)
    requires Trace(reg, requested, hist) && n in Names(hist[0].tasks) && n !in Names(hist[0].run)
    ensures Occ(hist[0].tasks, n) != []
    ensures RotatedBy(Occ(hist[0].tasks, n), MoveCount(hist, n))[0] in hist[|hist| - 1].run
    decreases |hist|
  {
    hide Inv, TurnOf, Ready, Moves, Occ, Rotated;
    var m, tail := hist[0], hist[1..];
    assert Names([]) == {};
    TraceTail(reg, requested, hist);
    var m' := hist[1];
    if Ready(m.tasks, m.run) {
      OccPop(m, m', n);
      if m.tasks[0].name == n {
        NoMovesOnceRun(reg, requested, tail, n);
        return;
      }
    } else {
      OccTurn(m, m', n);
      TurnKeepsRun(m, m');
    }
    assert n in Names(m'.tasks) && n !in Names(m'.run);
    RunsRotated(reg, requested, tail, n);
  }

  lemma TurnKeepsRun(m: Moment, m': Moment)
    requires TurnOf(m, m') && !Ready(m.tasks, m.run)
    ensures m'.run == m.run
  {
  }

  // ---- The first of several ----

  lemma {:induction false} WithoutLast<T>(o: seq<T>, t: T)
    requires o != [] && NoDuplicates(o) && t == o[|o| - 1]
    ensures Without(o, t) == o[..|o| - 1]
  {
    if |o| > 1 {
      assert o[0] != t && NoDuplicates(o[1..]);
      WithoutLast(o[1..], t);
    }
  }

  /** One index further back, in a circle. */
  ghost function Prev(i: nat, k: nat): (j: nat)
    requires i < k
    ensures j < k
  {
    if i == 0 then k - 1 else i - 1
  }

  /** Where the element at the front after `c` rotations of `k` elements was at first. */
  ghost function Back(c: nat, k: nat): (i: nat)
    requires k > 0
    ensures i < k
  {
    if c == 0 then 0 else Prev(Back(c - 1, k), k)
  }

  lemma RotatedAt<T>(o: seq<T>)
    requires o != [] && NoDuplicates(o)
    ensures NoDuplicates(Rotated(o)) && forall i | 0 <= i < |o| :: Rotated(o)[i] == o[Prev(i, |o|)]
  {
    WithoutLast(o, o[|o| - 1]);
  }

  lemma {:induction false} RotatedByAt<T>(o: seq<T>, c: nat)
    requires o != [] && NoDuplicates(o)
    ensures RotatedBy(o, c)[0] == o[Back(c, |o|)]
    decreases c
  {
    if c > 0 {
      RotatedAt(o);
      RotatedByAt(Rotated(o), c - 1);
    }
  }

  lemma {:induction false} BackIsStart(c: nat, k: nat)
    requires k > 0
    ensures Back(c, k) == if c % k == 0 then 0 else k - c % k
  {
    if c == 0 {
      DivMod.Quotient(0, 0, k);
    } else {
      BackIsStart(c - 1, k);
      var q, r := (c - 1) / k, (c - 1) % k;
      DivMod.Divided(c - 1, k);
      if r + 1 < k {
        DivMod.Quotient(q, r + 1, k);
      } else {
        DivMod.OneMore(q, k);
        DivMod.Quotient(q + 1, 0, k);
      }
    }
  }

  lemma {:induction false} OccNoDuplicates(ts: seq<Task>, n: Name)
    requires NoDuplicates(ts)
    ensures NoDuplicates(Occ(ts, n))
  {
    if ts != [] {
      assert ts[0] !in ts[1..];
      OccNoDuplicates(ts[1..], n);
    }
  }

  lemma SameName(run: seq<Task>, t: Task, u: Task)
    requires DistinctNames(run) && t in run && u in run && t.name == u.name
    ensures t == u
  {
  }

  /** Of all requested tasks of name `n`, the first one is run exactly if the number of turns that moved them
      is a multiple of their number. */
  lemma FirstIsRunByCount(reg: Registry, initial: seq<Task>, hist: seq<Moment>, n: Name)
    requires Trace(reg, Names(initial), hist) && hist[0].tasks == initial && hist[0].run == []
    requires NoDuplicates(initial) && n in Names(initial)
    ensures var o := Occ(initial, n);
            o != [] && (o[0] in hist[|hist| - 1].run <==> MoveCount(hist, n) % |o| == 0)
  {
    hide MoveCount, RotatedBy;
    var o, c, run := Occ(initial, n), MoveCount(hist, n), hist[|hist| - 1].run;
    RunsRotated(reg, Names(initial), hist, n);
    OccNoDuplicates(initial, n);
    RotatedByAt(o, c);
    BackIsStart(c, |o|);
    assert DistinctNames(run);
    var ran := o[Back(c, |o|)];
    assert ran in o && o[0] in o;
    if o[0] in run {
      SameName(run, o[0], ran);
    }
  }

  // ---- What brings a name forward ----

  /** Closed under dependencies, and under the order dependencies that may be waiting. */
  ghost predicate ClosedFor(reg: Registry, waits: set<Name>, k: set<Name>) {
    forall m | m in k && m in reg ::
      && (forall d | d in reg[m].dependencies :: d in k)
      && (forall d | d in reg[m].orderDependencies && d in waits :: d in k)
  }

  /** Nothing that has to go before command `m` is `n`, nor is `m` itself. */
  ghost predicate LeavesAlone(reg: Registry, waits: set<Name>, m: Name, n: Name) {
    exists k: set<Name> :: m in k && n !in k && ClosedFor(reg, waits, k)
  }

  ghost function Others(reg: Registry, waits: set<Name>, n: Name): set<Name> {
    set m | m in reg && LeavesAlone(reg, waits, m, n)
  }

  lemma OthersClosed(reg: Registry, rank: map<Name, nat>, waits: set<Name>, n: Name)
    requires Acyclic(reg, rank) && n in reg
    ensures n !in Others(reg, waits, n) && ClosedFor(reg, waits, Others(reg, waits, n))
    ensures forall m | m in reg && rank[m] < rank[n] :: m in Others(reg, waits, n)
  {
    var k := Others(reg, waits, n);
    forall m | m in k && m in reg
      ensures forall d | d in reg[m].dependencies :: d in k
      ensures forall d | d in reg[m].orderDependencies && d in waits :: d in k
    {
      var s: set<Name> :| m in s && n !in s && ClosedFor(reg, waits, s);
      assert forall d | d in s :: LeavesAlone(reg, waits, d, n);
    }
    var lower := set m | m in reg && rank[m] < rank[n];
    assert ClosedFor(reg, waits, lower);
  }

  /** The names of the tasks in front of the first one of name `n`. */
  ghost function Early(ts: seq<Task>, n: Name): set<Name> {
    if ts == [] || ts[0].name == n then {} else {ts[0].name} + Early(ts[1..], n)
  }

  lemma {:induction false} EarlyWithout(ts: seq<Task>, t: Task, n: Name)
    requires t in ts && t.name != n
    ensures {t.name} + Early(Without(ts, t), n) == {t.name} + Early(ts, n)
  {
    if ts[0] != t {
      EarlyWithout(ts[1..], t, n);
      assert Without(ts, t)[1..] == Without(ts[1..], t);
    }
  }

  lemma EarlyToFront(ts: seq<Task>, t: Task, n: Name)
    ensures Early(ToFront(ts, t), n) == if t.name == n then {} else {t.name} + Early(ts, n)
  {
    assert ToFront(ts, t)[1..] == if t in ts then Without(ts, t) else ts;
    if t in ts && t.name != n {
      EarlyWithout(ts, t, n);
    }
  }

  lemma {:induction false} EarlyPull(ts: seq<Task>, names: seq<Name>, tasks: map<Name, Task>, n: Name)
    requires Named(tasks)
    ensures forall d | d in Early(Pull(ts, names, tasks), n) :: d in Early(ts, n) || (d in names && d in tasks && d != n)
    ensures n !in names || n !in tasks ==> Early(ts, n) <= Early(Pull(ts, names, tasks), n)
  {
    if names != [] {
      var k := |names| - 1;
      assert names == names[..k] + [names[k]];
      EarlyPull(ts, names[..k], tasks, n);
      if names[k] in tasks {
        EarlyToFront(Pull(ts, names[..k], tasks), tasks[names[k]], n);
      }
    }
  }

  /** Once a task of name `n` has been put in front, only what comes after it in the list can get before it. */
  lemma {:induction false} EarlyPullAfter(ts: seq<Task>, names: seq<Name>, tasks: map<Name, Task>, n: Name, i: nat)
    requires Named(tasks) && i < |names| && names[i] == n && n in tasks
    ensures forall d | d in Early(Pull(ts, names, tasks), n) :: d != n && exists j :: i < j < |names| && names[j] == d
  {
    var k := |names| - 1;
    if i < k {
      EarlyPullAfter(ts, names[..k], tasks, n, i);
    }
    if names[k] in tasks {
      EarlyToFront(Pull(ts, names[..k], tasks), tasks[names[k]], n);
    }
  }

  lemma {:induction false} PullNames(ts: seq<Task>, names: seq<Name>, tasks: map<Name, Task>)
    requires Named(tasks)
    ensures forall d | d in Names(Pull(ts, names, tasks)) :: d in Names(ts) || (d in names && d in tasks)
  {
    if names != [] {
      var k := |names| - 1;
      var pulled := Pull(ts, names[..k], tasks);
      assert names == names[..k] + [names[k]];
      PullNames(ts, names[..k], tasks);
      if names[k] in tasks {
        var t := tasks[names[k]];
        Cons(t, pulled);
        if t in pulled {
          WithoutElems(pulled, t);
        }
      }
    }
  }

  // ---- When it is moved ----

  /** A set of names to which nothing outside is brought, and what it leaves alone. */
  ghost predicate Apart(reg: Registry, rank: map<Name, nat>, waits: set<Name>, k: set<Name>, n: Name) {
    && Acyclic(reg, rank) && n in reg && n in waits && n !in k && ClosedFor(reg, waits, k)
    && forall m | m in reg && rank[m] < rank[n] :: m in k
  }

  /** In front of the first task of name `n` there are only names of `k`. */
  ghost predicate Shielded(tasks: seq<Task>, waits: set<Name>, k: set<Name>, n: Name) {
    Early(tasks, n) <= k && Names(tasks) <= waits + k
  }

  lemma FrontIs(ts: seq<Task>, n: Name)
    requires ts != []
    ensures ts[0].name == n || ts[0].name in Early(ts, n)
    ensures ts[0].name == n ==> Early(ts, n) == {}
    ensures ts[0].name != n ==> Early(ts, n) == {ts[0].name} + Early(ts[1..], n)
  {
  }

  lemma ShieldedFront(reg: Registry, rank: map<Name, nat>, waits: set<Name>, k: set<Name>, n: Name, m: Moment)
    requires Apart(reg, rank, waits, k, n) && m.tasks != [] && Shielded(m.tasks, waits, k, n)
    requires Registered(reg, m.tasks)
    ensures !Moves(m, n)
    ensures forall d | d in m.tasks[0].dependencies :: d in k
    ensures forall d | d in m.tasks[0].orderDependencies && d in Names(m.tasks) :: d in k
  {
    var f := m.tasks[0];
    FrontIs(m.tasks, n);
    assert f in m.tasks;
    forall d | d in f.orderDependencies && d in Names(m.tasks)
      ensures d in k
    {
      assert d in waits + k;
    }
  }

  /** A turn that puts something in front, in its two steps. */
  lemma PullParts(m: Moment, m': Moment)
    requires TurnOf(m, m') && !Ready(m.tasks, m.run)
    ensures var f := m.tasks[0];
            && m'.tasks == Pull(Pull(m.tasks, f.dependencies, m'.supply), f.orderDependencies, Waiting(m.tasks, m.run))
            && m'.run == m.run && Named(m'.supply) && Named(Waiting(m.tasks, m.run))
    ensures forall d :: d in m'.supply <==> d in m.tasks[0].dependencies && d !in Names(m.run)
    ensures forall d :: d in Waiting(m.tasks, m.run) <==> d in Names(m.tasks) && d !in Names(m.run)
  {
  }

  lemma ShieldedTurn(reg: Registry, rank: map<Name, nat>, waits: set<Name>, k: set<Name>, n: Name, m: Moment, m': Moment)
    requires Apart(reg, rank, waits, k, n) && TurnOf(m, m') && Shielded(m.tasks, waits, k, n)
    requires Registered(reg, m.tasks) && n !in Names(m.run)
    ensures !Moves(m, n) && (n in Names(m'.run) || Shielded(m'.tasks, waits, k, n))
  {
    ShieldedFront(reg, rank, waits, k, n, m);
    if Ready(m.tasks, m.run) {
      FrontIs(m.tasks, n);
      Front(m.tasks);
      Snoc(m.run, m.tasks[0]);
    } else {
      PullParts(m, m');
      hide *;
      ShieldedPull(m.tasks, m.tasks[0].dependencies, m'.supply, waits, k, n);
      ShieldedPull(Pull(m.tasks, m.tasks[0].dependencies, m'.supply), m.tasks[0].orderDependencies,
                   Waiting(m.tasks, m.run), waits, k, n);
    }
  }

  lemma ShieldedPull(ts: seq<Task>, names: seq<Name>, tasks: map<Name, Task>, waits: set<Name>, k: set<Name>, n: Name)
    requires Shielded(ts, waits, k, n) && Named(tasks)
    requires forall d | d in names && d in tasks :: d in k
    ensures Shielded(Pull(ts, names, tasks), waits, k, n)
  {
    EarlyPull(ts, names, tasks, n);
    PullNames(ts, names, tasks);
  }

  lemma {:induction false} NoMoves(reg: Registry, rank: map<Name, nat>, requested: set<Name>, waits: set<Name>,
                                   k: set<Name>, n: Name, hist: seq<Moment>)
    requires Trace(reg, requested, hist) && Apart(reg, rank, waits, k, n)
    requires n in Names(hist[0].run) || Shielded(hist[0].tasks, waits, k, n)
    ensures MoveCount(hist, n) == 0
    decreases |hist|
  {
    hide TurnOf, Apart, Shielded, Moves;
    if n in Names(hist[0].run) {
      NoMovesOnceRun(reg, requested, hist, n);
    } else if |hist| > 1 {
      TraceTail(reg, requested, hist);
      ShieldedTurn(reg, rank, waits, k, n, hist[0], hist[1]);
      NoMoves(reg, rank, requested, waits, k, n, hist[1..]);
    } else {
      NothingMoves(hist[0], n);
    }
  }

  lemma NothingMoves(m: Moment, n: Name)
    ensures m.tasks == [] ==> !Moves(m, n)
  {
  }

  lemma NamesOfPrefix(run: seq<Task>, k: nat)
    requires k <= |run|
    ensures Names(run[..k]) <= Names(run)
  {
    assert forall u | u in Elems(run[..k]) :: u in Elems(run);
  }

  lemma RunClosed(reg: Registry, requested: set<Name>, m: Moment)
    requires Inv(reg, requested, m.tasks, m.run)
    ensures ClosedFor(reg, requested, Names(m.run))
  {
    forall n | n in Names(m.run) && n in reg
      ensures forall d | d in reg[n].dependencies :: d in Names(m.run)
      ensures forall d | d in reg[n].orderDependencies && d in requested :: d in Names(m.run)
    {
      var k :| 0 <= k < |m.run| && m.run[k].name == n;
      assert m.run[k] in m.run && Registered(reg, m.run) && Ordered(m.run, requested);
      NamesOfPrefix(m.run, k);
      hide Names, Needed;
    }
  }

  lemma UnmovedTurn(m: Moment, m': Moment, n: Name)
    requires TurnOf(m, m') && !Moves(m, n) && n in Names(m.tasks) && n !in Names(m.run) && m.tasks[0].name != n
    ensures Early(m.tasks, n) + Names(m.run) <= Early(m'.tasks, n) + Names(m'.run)
    ensures n in Names(m'.tasks) && n !in Names(m'.run)
  {
    if Ready(m.tasks, m.run) {
      FrontIs(m.tasks, n);
      Front(m.tasks);
      Snoc(m.run, m.tasks[0]);
    } else {
      OccTurn(m, m', n);
      PullParts(m, m');
      EarlyPull(m.tasks, m.tasks[0].dependencies, m'.supply, n);
      EarlyPull(Pull(m.tasks, m.tasks[0].dependencies, m'.supply), m.tasks[0].orderDependencies,
                Waiting(m.tasks, m.run), n);
    }
  }

  /** A name that is never moved is run when all that was listed before it has been run, and so none of that
      brings it. */
  lemma {:induction false} UnmovedMeans(reg: Registry, requested: set<Name>, hist: seq<Moment>, n: Name, before: set<Name>)
    requires Trace(reg, requested, hist) && MoveCount(hist, n) == 0
    requires n in Names(hist[0].tasks) && n !in Names(hist[0].run)
    requires before <= Early(hist[0].tasks, n) + Names(hist[0].run)
    ensures forall p | p in before :: LeavesAlone(reg, requested, p, n)
    decreases |hist|
  {
    hide Inv, TurnOf, Moves, Early;
    var m := hist[0];
    assert Names([]) == {};
    TraceTail(reg, requested, hist);
    if m.tasks[0].name == n {
      FrontIs(m.tasks, n);
      RunClosed(reg, requested, m);
    } else {
      UnmovedTurn(m, hist[1], n);
      UnmovedMeans(reg, requested, hist[1..], n, before);
    }
  }

  /** Some command listed before the first task of name `n` brings it: by a dependency, or by an order
      dependency that was requested, directly or not. */
  ghost predicate BroughtEarly(reg: Registry, initial: seq<Task>, n: Name) {
    exists p :: p in Early(initial, n) && !LeavesAlone(reg, Names(initial), p, n)
  }

  lemma EarlyNames(ts: seq<Task>, n: Name)
    ensures Early(ts, n) <= Names(ts)
  {
    if ts != [] {
      Front(ts);
      EarlyNames(ts[1..], n);
    }
  }

  /** A requested name is moved exactly if something listed before it brings it. */
  lemma MovedIff(reg: Registry, rank: map<Name, nat>, initial: seq<Task>, hist: seq<Moment>, n: Name)
    requires Acyclic(reg, rank) && Trace(reg, Names(initial), hist)
    requires hist[0].tasks == initial && hist[0].run == [] && n in Names(initial)
    ensures MoveCount(hist, n) > 0 <==> BroughtEarly(reg, initial, n)
  {
    hide MoveCount, LeavesAlone, ClosedFor;
    var requested := Names(initial);
    assert Inv(reg, requested, initial, []);
    var k := Others(reg, requested, n);
    EarlyNames(initial, n);
    RequestedKnown(reg, requested, initial);
    if BroughtEarly(reg, initial, n) {
      if MoveCount(hist, n) == 0 {
        UnmovedMeans(reg, requested, hist, n, Early(initial, n));
      }
    } else {
      OthersClosed(reg, rank, requested, n);
      NoMoves(reg, rank, requested, requested, k, n, hist);
    }
  }

  lemma RequestedKnown(reg: Registry, requested: set<Name>, initial: seq<Task>)
    requires Inv(reg, requested, initial, [])
    ensures forall n | n in Names(initial) :: n in reg
  {
    forall n | n in Names(initial)
      ensures n in reg
    {
      var t :| t in Elems(initial) && t.name == n;
      assert t in initial;
    }
  }

  /** Whatever a command lists after `n` leaves `n` alone. */
  ghost predicate ListedLast(reg: Registry, waits: set<Name>, n: Name) {
    forall f, i, j | f in reg && 0 <= i < j < |Before(reg[f])| && Before(reg[f])[i] == n ::
      Before(reg[f])[j] == n || LeavesAlone(reg, waits, Before(reg[f])[j], n)
  }

  /** All that goes before a command, in the order in which a turn looks at it. */
  function Before(c: Command): seq<Name> {
    c.dependencies + c.orderDependencies
  }

  /** The names that are run in the end. */
  ghost function AllNeeded(reg: Registry, requested: set<Name>): set<Name> {
    set n | n in reg && Needed(reg, requested, n)
  }

  lemma ListedAfter(reg: Registry, waits: set<Name>, f: Name, n: Name, i: nat, j: nat)
    requires f in reg && ListedLast(reg, waits, n) && i < j < |Before(reg[f])|
    requires Before(reg[f])[i] == n != Before(reg[f])[j]
    ensures LeavesAlone(reg, waits, Before(reg[f])[j], n)
  {
  }

  /** Then a move leaves only names in front of it that do not bring it again. */
  lemma ShieldedAfterMove(reg: Registry, waits: set<Name>, n: Name, m: Moment, m': Moment)
    requires Registered(reg, m.tasks)
    requires TurnOf(m, m') && Moves(m, n) && ListedLast(reg, waits, n)
    ensures forall d | d in Early(m'.tasks, n) :: LeavesAlone(reg, waits, d, n)
  {
    var f, waiting := m.tasks[0], Waiting(m.tasks, m.run);
    assert f in m.tasks && Before(reg[f.name]) == f.dependencies + f.orderDependencies;
    PullParts(m, m');
    if n in f.orderDependencies {
      hide *;
      AfterOrder(reg, waits, n, f, Pull(m.tasks, f.dependencies, m'.supply), waiting);
    } else {
      hide *;
      AfterDependency(reg, waits, n, f, m.tasks, m'.supply, waiting);
    }
  }

  lemma AfterOrder(reg: Registry, waits: set<Name>, n: Name, f: Task, ts: seq<Task>, waiting: map<Name, Task>)
    requires f.name in reg && Before(reg[f.name]) == f.dependencies + f.orderDependencies && ListedLast(reg, waits, n)
    requires Named(waiting) && n in waiting && n in f.orderDependencies
    ensures forall d | d in Early(Pull(ts, f.orderDependencies, waiting), n) :: LeavesAlone(reg, waits, d, n)
  {
    hide LeavesAlone, ListedLast, Before;
    var order, deps := f.orderDependencies, f.dependencies;
    var i :| 0 <= i < |order| && order[i] == n;
    EarlyPullAfter(ts, order, waiting, n, i);
    forall d | d in Early(Pull(ts, order, waiting), n)
      ensures LeavesAlone(reg, waits, d, n)
    {
      var j :| i < j < |order| && order[j] == d;
      ListedAfter(reg, waits, f.name, n, |deps| + i, |deps| + j);
    }
  }

  lemma AfterDependency(reg: Registry, waits: set<Name>, n: Name, f: Task, ts: seq<Task>, supply: map<Name, Task>,
                        waiting: map<Name, Task>)
    requires f.name in reg && Before(reg[f.name]) == f.dependencies + f.orderDependencies && ListedLast(reg, waits, n)
    requires Named(supply) && Named(waiting) && n in supply && n in f.dependencies && n !in f.orderDependencies
    ensures forall d | d in Early(Pull(Pull(ts, f.dependencies, supply), f.orderDependencies, waiting), n) ::
              LeavesAlone(reg, waits, d, n)
  {
    hide LeavesAlone, ListedLast, Before;
    var order, deps := f.orderDependencies, f.dependencies;
    var i :| 0 <= i < |deps| && deps[i] == n;
    EarlyPullAfter(ts, deps, supply, n, i);
    EarlyPull(Pull(ts, deps, supply), order, waiting, n);
    forall d | d in Early(Pull(Pull(ts, deps, supply), order, waiting), n)
      ensures LeavesAlone(reg, waits, d, n)
    {
      if d in order {
        var j :| 0 <= j < |order| && order[j] == d;
        ListedAfter(reg, waits, f.name, n, i, |deps| + j);
      } else {
        var j :| i < j < |deps| && deps[j] == d;
        ListedAfter(reg, waits, f.name, n, i, j);
      }
    }
  }

  lemma {:induction false} MovedOnce(reg: Registry, rank: map<Name, nat>, requested: set<Name>, n: Name, hist: seq<Moment>)
    requires Acyclic(reg, rank) && Trace(reg, requested, hist) && n in requested && n in reg
    requires ListedLast(reg, AllNeeded(reg, requested), n)
    ensures MoveCount(hist, n) <= 1
    decreases |hist|
  {
    hide TurnOf, Moves, ListedLast, LeavesAlone, Early, Acyclic;
    if |hist| > 1 {
      TraceTail(reg, requested, hist);
      var tail := hist[1..];
      if Moves(hist[0], n) {
        var waits := AllNeeded(reg, requested);
        var k := Others(reg, waits, n);
        ShieldedAfterMove(reg, waits, n, hist[0], hist[1]);
        NeededNames(reg, requested, hist[1], n);
        EarlyNames(hist[1].tasks, n);
        OthersClosed(reg, rank, waits, n);
        NoMoves(reg, rank, requested, waits, k, n, tail);
      } else {
        MovedOnce(reg, rank, requested, n, tail);
      }
    } else {
      NothingMoves(hist[0], n);
    }
  }

  lemma NeededNames(reg: Registry, requested: set<Name>, m: Moment, n: Name)
    requires Inv(reg, requested, m.tasks, m.run) && n in requested && n in reg
    ensures Names(m.tasks) <= AllNeeded(reg, requested) && n in AllNeeded(reg, requested)
  {
    forall d | d in Names(m.tasks)
      ensures d in reg
    {
      var t :| t in Elems(m.tasks) && t.name == d;
      assert t in m.tasks;
    }
  }

  /** Unless a command lists something after `n` that needs `n` itself: the first requested task of name `n` is
      run if and only if it is the only one, or nothing listed before it brings it. */
  lemma FirstIsRunIff(reg: Registry, rank: map<Name, nat>, initial: seq<Task>, hist: seq<Moment>, n: Name)
    requires Acyclic(reg, rank) && Trace(reg, Names(initial), hist)
    requires hist[0].tasks == initial && hist[0].run == []
    requires NoDuplicates(initial) && n in Names(initial)
    ensures var o, run := Occ(initial, n), hist[|hist| - 1].run;
            && o != []
            && (!BroughtEarly(reg, initial, n) ==> o[0] in run)
            && (ListedLast(reg, AllNeeded(reg, Names(initial)), n) ==>
                  (o[0] in run <==> |o| == 1 || !BroughtEarly(reg, initial, n))
                  && (BroughtEarly(reg, initial, n) ==> o[|o| - 1] in run))
  {
    hide MoveCount, BroughtEarly, ListedLast, Trace, Occ, RotatedBy, Acyclic;
    var requested, o, c := Names(initial), Occ(initial, n), MoveCount(hist, n);
    InitialKnown(reg, initial, hist);
    FirstIsRunByCount(reg, initial, hist, n);
    RunsRotated(reg, requested, hist, n);
    MovedIff(reg, rank, initial, hist, n);
    ZeroOrOne(|o|);
    if ListedLast(reg, AllNeeded(reg, requested), n) {
      MovedOnce(reg, rank, requested, n, hist);
      if c == 1 {
        RotatedOnce(o);
      }
    }
  }

  lemma InitialKnown(reg: Registry, initial: seq<Task>, hist: seq<Moment>)
    requires Trace(reg, Names(initial), hist) && hist[0].tasks == initial && hist[0].run == []
    ensures forall n | n in Names(initial) :: n in reg
    ensures Names([]) == {}
  {
    assert Inv(reg, Names(initial), initial, []);
    RequestedKnown(reg, Names(initial), initial);
  }

  lemma ZeroOrOne(k: nat)
    requires k > 0
    ensures 0 % k == 0 && (1 % k == 0 <==> k == 1)
  {
    DivMod.Quotient(0, 0, k);
    if k > 1 {
      DivMod.Quotient(0, 1, k);
    }
  }

  lemma RotatedOnce<T>(o: seq<T>)
    requires o != []
    ensures RotatedBy(o, 1)[0] == o[|o| - 1]
  {
    assert RotatedBy(o, 1) == RotatedBy(Rotated(o), 0);
  }

  const APP: Name := "app"
  const FLASH: Name := "flash"

  /** Flashing needs the application. */
  const COMMANDS: Registry := map[APP := Command([], []), FLASH := Command([APP], [])]

  lemma CommandsKnown()
    ensures APP != FLASH && COMMANDS.Keys == {APP, FLASH}
    ensures COMMANDS[FLASH] == Command([APP], []) && COMMANDS[APP] == Command([], [])
    ensures Acyclic(COMMANDS, map[APP := 0, FLASH := 1])
  {
    assert APP[0] == 'a' && FLASH[0] == 'f';
  }

  lemma NothingAfterApp(waits: set<Name>)
    ensures ListedLast(COMMANDS, waits, APP)
  {
    CommandsKnown();
    hide APP, FLASH, COMMANDS, LeavesAlone;
    assert forall f | f in COMMANDS :: |Before(COMMANDS[f])| <= 1;
  }

  lemma FlashBringsApp(initial: seq<Task>)
    requires |initial| == 3 && initial[0].name == FLASH && initial[1].name == initial[2].name == APP
    ensures BroughtEarly(COMMANDS, initial, APP) && Occ(initial, APP) == [initial[1], initial[2]]
  {
    CommandsKnown();
    hide APP, FLASH, COMMANDS;
    assert initial[1..] == [initial[1], initial[2]] && initial[1..][1..] == [initial[2]];
    assert initial[1..][1..][1..] == [];
    assert Occ(initial[1..][1..], APP) == [initial[2]];
    assert Occ(initial[1..], APP) == [initial[1], initial[2]];
    assert FLASH in Early(initial, APP);
    forall k: set<Name> | FLASH in k && ClosedFor(COMMANDS, Names(initial), k)
      ensures APP in k
    {
      assert APP in COMMANDS[FLASH].dependencies;
    }
  }

  /** The warning announces the first of two equal commands; here the second is run, and the first is not. */
  method SecondIsRun() returns (initial: seq<Task>, run: seq<Task>)
    ensures |initial| == 3 && initial[1] != initial[2] && initial[1].name == initial[2].name
    ensures initial[1] !in run && initial[2] in run
  {
    var flash := new Task(FLASH, COMMANDS[FLASH]);
    var app := new Task(APP, COMMANDS[APP]);
    var app' := new Task(APP, COMMANDS[APP]);
    initial := [flash, app, app'];
    CommandsKnown();
    FlashBringsApp(initial);
    NothingAfterApp(AllNeeded(COMMANDS, Names(initial)));
    ghost var rank, hist := map[APP := 0, FLASH := 1], [];
    run, hist := ExecuteTasks(COMMANDS, initial, rank);
    assert app in Elems(initial);
    hide *;
    FirstIsRunIff(COMMANDS, rank, initial, hist, APP);
  }
}
