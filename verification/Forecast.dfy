/** How often idf.py's scheduler moves a name, told from the declared commands and the names on the command
    line alone (tools/idf.py:600-643). */
module Forecast {
  import opened Scheduler
  import opened Repeats

  // ---- The loop on names ----

  function NamesOf(ts: seq<Task>): (ns: seq<Name>)
    ensures |ns| == |ts| && forall k | 0 <= k < |ts| :: ns[k] == ts[k].name
  {
    seq(|ts|, k requires 0 <= k < |ts| => ts[k].name)
  }

  /** The list without the last place of `n`. */
  function WithoutLast(ns: seq<Name>, n: Name): (r: seq<Name>)
    requires n in ns
    ensures |r| == |ns| - 1
  {
    if n in ns[1..] then [ns[0]] + WithoutLast(ns[1..], n) else ns[1..]
  }

  /** Puts a name in front: the last one waiting, or the first if that has been put there in this turn, or a new one. */
  function NameToFront(ns: seq<Name>, n: Name, moved: bool): seq<Name> {
    if n !in ns then [n] + ns
    else if moved then [n] + Without(ns, n)
    else [n] + WithoutLast(ns, n)
  }

  function PullNames(ns: seq<Name>, list: seq<Name>, wanted: set<Name>, moved: set<Name>): seq<Name> {
    if list == [] then ns else
    var k := |list| - 1;
    var pulled := PullNames(ns, list[..k], wanted, moved);
    if list[k] in wanted then NameToFront(pulled, list[k], list[k] in moved || list[k] in list[..k]) else pulled
  }

  predicate Known(reg: Registry, ns: seq<Name>) {
    forall n | n in ns :: n in reg
  }

  /** The dependencies of the front command that have not been run. */
  function Missing(reg: Registry, ns: seq<Name>, run: set<Name>): set<Name>
    requires ns != [] && Known(reg, ns)
  {
    set d | d in reg[ns[0]].dependencies && d !in run
  }

  function Waits(ns: seq<Name>, run: set<Name>): set<Name> {
    set d | d in ns && d !in run
  }

  predicate FrontIsReady(reg: Registry, ns: seq<Name>, run: set<Name>)
    requires ns != [] && Known(reg, ns)
  {
    && (forall d | d in reg[ns[0]].dependencies :: d in run)
    && (forall d | d in reg[ns[0]].orderDependencies && d in ns :: d in run)
  }

  function NextNames(reg: Registry, ns: seq<Name>, run: set<Name>): seq<Name>
    requires ns != [] && Known(reg, ns)
  {
    if FrontIsReady(reg, ns, run) then ns[1..] else
    var c := reg[ns[0]];
    PullNames(PullNames(ns, c.dependencies, Missing(reg, ns, run), {}),
              c.orderDependencies, Waits(ns, run), Missing(reg, ns, run))
  }

  function NextRun(reg: Registry, ns: seq<Name>, run: set<Name>): set<Name>
    requires ns != [] && Known(reg, ns)
  {
    if FrontIsReady(reg, ns, run) then run + {ns[0]} else run
  }

  // ---- The loop on names ends ----

  function Elements(ns: seq<Name>): set<Name> {
    set n | n in ns
  }

  lemma {:induction false} WithoutLastElements(ns: seq<Name>, n: Name)
    requires n in ns
    ensures forall d :: d in ns <==> d == n || d in WithoutLast(ns, n)
  {
    assert ns == [ns[0]] + ns[1..];
    if n in ns[1..] {
      WithoutLastElements(ns[1..], n);
    }
  }

  lemma {:induction false} WithoutElements(ns: seq<Name>, n: Name)
    requires n in ns
    ensures forall d :: d in ns <==> d == n || d in Without(ns, n)
  {
    assert ns == [ns[0]] + ns[1..];
    if ns[0] != n {
      WithoutElements(ns[1..], n);
    }
  }

  lemma ToFrontElements(ns: seq<Name>, n: Name, moved: bool)
    ensures var r := NameToFront(ns, n, moved);
            && r != [] && r[0] == n && |r| == (if n in ns then |ns| else |ns| + 1)
            && forall d :: d in r <==> d == n || d in ns
  {
    if n in ns {
      WithoutElements(ns, n);
      WithoutLastElements(ns, n);
    }
  }

  lemma {:induction false} PullElements(ns: seq<Name>, list: seq<Name>, wanted: set<Name>, moved: set<Name>)
    ensures var r := PullNames(ns, list, wanted, moved);
            && (forall d :: d in r <==> d in ns || (d in list && d in wanted))
            && ((forall d | d in list && d in wanted :: d in ns) ==> |r| == |ns|)
            && ((exists d :: d in list && d in wanted) ==> r != [] && r[0] in list && r[0] in wanted)
            && (!(exists d :: d in list && d in wanted) ==> r == ns)
  {
    if list != [] {
      var k := |list| - 1;
      var pulled := PullNames(ns, list[..k], wanted, moved);
      assert list == list[..k] + [list[k]];
      PullElements(ns, list[..k], wanted, moved);
      if list[k] in wanted {
        ToFrontElements(pulled, list[k], list[k] in moved || list[k] in list[..k]);
      }
    }
  }

  /** What a turn uses up: the commands neither waiting nor run, the list, the rank of the front command. */
  ghost predicate Smaller(reg: Registry, rank: map<Name, nat>, ns: seq<Name>, run: set<Name>,
                          ns': seq<Name>, run': set<Name>)
    requires rank.Keys == reg.Keys && Known(reg, ns) && Known(reg, ns') && ns != []
  {
    var a, b := reg.Keys - Elements(ns) - run, reg.Keys - Elements(ns') - run';
    || b < a
    || (b == a && |ns'| < |ns|)
    || (b == a && |ns'| == |ns| && ns' != [] && rank[ns'[0]] < rank[ns[0]])
  }

  lemma NextIsSmaller(reg: Registry, rank: map<Name, nat>, ns: seq<Name>, run: set<Name>)
    requires Acyclic(reg, rank) && ns != [] && Known(reg, ns)
    ensures Known(reg, NextNames(reg, ns, run))
    ensures Smaller(reg, rank, ns, run, NextNames(reg, ns, run), NextRun(reg, ns, run))
  {
    var c := reg[ns[0]];
    if FrontIsReady(reg, ns, run) {
      assert ns == [ns[0]] + ns[1..];
      assert reg.Keys - Elements(ns) - run == reg.Keys - Elements(ns[1..]) - (run + {ns[0]});
    } else {
      NotReadyPulls(reg, rank, ns, run);
    }
  }

  lemma NotReadyPulls(reg: Registry, rank: map<Name, nat>, ns: seq<Name>, run: set<Name>)
    requires Acyclic(reg, rank) && ns != [] && Known(reg, ns) && !FrontIsReady(reg, ns, run)
    ensures Known(reg, NextNames(reg, ns, run))
    ensures Smaller(reg, rank, ns, run, NextNames(reg, ns, run), run)
  {
    var c, missing, waits := reg[ns[0]], Missing(reg, ns, run), Waits(ns, run);
    var pulled := PullNames(ns, c.dependencies, missing, {});
    var ns' := PullNames(pulled, c.orderDependencies, waits, missing);
    PullElements(ns, c.dependencies, missing, {});
    PullElements(pulled, c.orderDependencies, waits, missing);
    hide PullNames;
    assert forall d :: d in ns' <==> d in ns || d in missing;
    assert ns' != [] && (ns'[0] in c.dependencies || ns'[0] in c.orderDependencies);
    if d :| d in missing && d !in ns {
      assert d in (reg.Keys - Elements(ns) - run) && d !in (reg.Keys - Elements(ns') - run);
      assert reg.Keys - Elements(ns') - run < reg.Keys - Elements(ns) - run;
    } else {
      assert Elements(ns') == Elements(ns);
    }
  }

  /** In this turn a waiting `n` is put in front. */
  predicate NameMoves(reg: Registry, ns: seq<Name>, run: set<Name>, n: Name)
    requires ns != [] && Known(reg, ns)
  {
    n in ns && n !in run && (n in reg[ns[0]].dependencies || n in reg[ns[0]].orderDependencies)
  }

  /** In how many turns that is going to happen. */
  ghost function Moves(reg: Registry, rank: map<Name, nat>, ns: seq<Name>, run: set<Name>, n: Name): nat
    requires Acyclic(reg, rank) && Known(reg, ns)
    decreases reg.Keys - Elements(ns) - run, |ns|, if ns == [] then 0 else rank[ns[0]]
  {
    if ns == [] then 0 else
    NextIsSmaller(reg, rank, ns, run);
    (if NameMoves(reg, ns, run, n) then 1 else 0)
    + Moves(reg, rank, NextNames(reg, ns, run), NextRun(reg, ns, run), n)
  }

  // ---- The loop on tasks does what the loop on names does ----

  lemma NamesIn(ts: seq<Task>, n: Name)
    ensures n in NamesOf(ts) <==> n in Names(ts)
  {
    if n in NamesOf(ts) {
      var k :| 0 <= k < |ts| && NamesOf(ts)[k] == n;
      assert ts[k] in Elems(ts);
    }
    if n in Names(ts) {
      var t :| t in Elems(ts) && t.name == n;
      var k :| 0 <= k < |ts| && ts[k] == t;
      assert NamesOf(ts)[k] == n;
    }
  }

  lemma NamesCons(ts: seq<Task>)
    requires ts != []
    ensures NamesOf(ts) == [ts[0].name] + NamesOf(ts[1..])
  {
  }

  lemma NamesWithout(ts: seq<Task>, t: Task)
    requires t in ts
    ensures NamesOf(Without(ts, t))
         == if ts[0] == t then NamesOf(ts[1..]) else [ts[0].name] + NamesOf(Without(ts[1..], t))
  {
    if ts[0] != t {
      NamesCons(Without(ts, t));
      assert Without(ts, t)[1..] == Without(ts[1..], t);
    }
  }

  lemma {:induction false} DropFirst(ts: seq<Task>, t: Task)
    requires t in ts && Occ(ts, t.name) != [] && Occ(ts, t.name)[0] == t
    ensures t.name in NamesOf(ts) && NamesOf(Without(ts, t)) == Without(NamesOf(ts), t.name)
  {
    NamesIn(ts, t.name);
    NamesCons(ts);
    NamesWithout(ts, t);
    if ts[0] != t {
      assert ts[0].name != t.name && Occ(ts[1..], t.name) == Occ(ts, t.name);
      hide Occ, NamesOf, Names;
      DropFirst(ts[1..], t);
    }
  }

  lemma {:induction false} DropLast(ts: seq<Task>, t: Task)
    requires NoDuplicates(ts) && t in ts
    requires Occ(ts, t.name) != [] && Occ(ts, t.name)[|Occ(ts, t.name)| - 1] == t
    ensures t.name in NamesOf(ts) && NamesOf(Without(ts, t)) == WithoutLast(NamesOf(ts), t.name)
  {
    NamesIn(ts, t.name);
    NamesIn(ts[1..], t.name);
    NamesCons(ts);
    NamesWithout(ts, t);
    assert NamesOf(ts)[1..] == NamesOf(ts[1..]);
    assert NoDuplicates(ts[1..]) && ts[0] !in ts[1..];
    if ts[0] == t {
      LastOfTail(ts, t);
    } else {
      LastInTail(ts, t);
      hide Occ, NamesOf, Names, NoDuplicates;
      DropLast(ts[1..], t);
    }
  }

  lemma LastInTail(ts: seq<Task>, t: Task)
    requires t in ts && ts[0] != t
    requires Occ(ts, t.name) != [] && Occ(ts, t.name)[|Occ(ts, t.name)| - 1] == t
    ensures t in ts[1..] && t.name in Names(ts[1..])
    ensures var o := Occ(ts[1..], t.name); o != [] && o[|o| - 1] == t
  {
    hide Names, Elems;
    assert ts == [ts[0]] + ts[1..];
    OccHas(ts[1..], t);
    Member(t, ts[1..]);
    var o := Occ(ts[1..], t.name);
    assert o != [] && (Occ(ts, t.name) == o || Occ(ts, t.name) == [ts[0]] + o);
  }

  lemma LastOfTail(ts: seq<Task>, t: Task)
    requires ts != [] && ts[0] == t && t !in ts[1..]
    requires Occ(ts, t.name) != [] && Occ(ts, t.name)[|Occ(ts, t.name)| - 1] == t
    ensures t.name !in Names(ts[1..])
  {
    var o := Occ(ts[1..], t.name);
    assert Occ(ts, t.name) == [t] + o;
    LastOfLonger(t, o);
  }

  lemma LastOfLonger<T>(t: T, o: seq<T>)
    ensures o == [] || ([t] + o)[|[t] + o| - 1] in o
  {
    assert o == [] || ([t] + o)[|o|] == o[|o| - 1];
  }

  lemma {:induction false} WithoutDistinct(ts: seq<Task>, t: Task)
    requires NoDuplicates(ts) && t in ts
    ensures NoDuplicates(Without(ts, t)) && t !in Without(ts, t)
    ensures forall u | u in Without(ts, t) :: u in ts
  {
    assert ts == [ts[0]] + ts[1..] && NoDuplicates(ts[1..]) && ts[0] !in ts[1..];
    if ts[0] != t {
      WithoutDistinct(ts[1..], t);
    }
  }

  /** A task that can be put in front as its name is: the first of its name if that has been moved, else the last,
      or a new one of a new name. */
  ghost predicate Placed(ts: seq<Task>, t: Task, moved: bool) {
    var o := Occ(ts, t.name);
    if o == [] then true else t == o[if moved then 0 else |o| - 1]
  }

  lemma ToFrontNames(ts: seq<Task>, t: Task, moved: bool)
    requires NoDuplicates(ts) && Placed(ts, t, moved)
    ensures NamesOf(ToFront(ts, t)) == NameToFront(NamesOf(ts), t.name, moved) && NoDuplicates(ToFront(ts, t))
  {
    NamesIn(ts, t.name);
    var o := Occ(ts, t.name);
    assert o == [] || t in o;
    Member(t, ts);
    FrontNames(ts, t);
    if t in ts {
      WithoutDistinct(ts, t);
      assert NoDuplicates(MoveToFront(ts, t));
      hide Occ, NamesOf, Names, Without, WithoutLast, NoDuplicates;
      if moved {
        DropFirst(ts, t);
      } else {
        DropLast(ts, t);
      }
    } else {
      assert NoDuplicates([t] + ts);
    }
  }

  lemma FrontNames(ts: seq<Task>, t: Task)
    ensures NamesOf(ToFront(ts, t)) == [t.name] + (if t in ts then NamesOf(Without(ts, t)) else NamesOf(ts))
  {
    NamesCons(ToFront(ts, t));
    assert ToFront(ts, t)[1..] == if t in ts then Without(ts, t) else ts;
  }

  /** Each of these tasks can be put in front as its name is. */
  ghost predicate Fits(ts: seq<Task>, tasks: map<Name, Task>, moved: set<Name>) {
    Named(tasks) && forall d | d in tasks :: Placed(ts, tasks[d], d in moved)
  }

  lemma {:induction false} PullIs(ts: seq<Task>, list: seq<Name>, tasks: map<Name, Task>, moved: set<Name>)
    requires NoDuplicates(ts) && Fits(ts, tasks, moved)
    requires NoDuplicates(list) || forall d | d in tasks :: tasks[d] in ts
    ensures NamesOf(Pull(ts, list, tasks)) == PullNames(NamesOf(ts), list, tasks.Keys, moved)
    ensures NoDuplicates(Pull(ts, list, tasks))
  {
    if list != [] {
      var k := |list| - 1;
      var last, before := list[k], list[..k];
      assert list == before + [last];
      assert NoDuplicates(list) ==> NoDuplicates(before) && last !in before;
      PullIs(ts, before, tasks, moved);
      if last in tasks {
        PlacedAfter(ts, before, tasks, moved, last);
        ToFrontNames(Pull(ts, before, tasks), tasks[last], last in moved || last in before);
      }
    }
  }

  lemma FitsAt(ts: seq<Task>, tasks: map<Name, Task>, moved: set<Name>, d: Name)
    requires Fits(ts, tasks, moved) && d in tasks
    ensures Named(tasks) && tasks[d].name == d && Placed(ts, tasks[d], d in moved)
  {
  }

  lemma PlacedAfter(ts: seq<Task>, before: seq<Name>, tasks: map<Name, Task>, moved: set<Name>, d: Name)
    requires Fits(ts, tasks, moved) && d in tasks && (d in before ==> tasks[d] in ts)
    ensures Placed(Pull(ts, before, tasks), tasks[d], d in moved || d in before)
  {
    hide Fits, Pull, Occ, Named;
    FitsAt(ts, tasks, moved, d);
    OccPull(ts, before, tasks, d);
  }

  /** The two loops are at the same point. */
  ghost predicate Same(reg: Registry, m: Moment, ns: seq<Name>, run: set<Name>) {
    NoDuplicates(m.tasks) && Registered(reg, m.tasks) && ns == NamesOf(m.tasks) && run == Names(m.run)
  }

  lemma SameFront(reg: Registry, m: Moment, ns: seq<Name>, run: set<Name>)
    requires Same(reg, m, ns, run) && m.tasks != []
    ensures ns != [] && Known(reg, ns) && ns[0] == m.tasks[0].name && Declared(m.tasks[0], reg[ns[0]])
    ensures forall n :: n in ns <==> n in Names(m.tasks)
    ensures FrontIsReady(reg, ns, run) <==> Ready(m.tasks, m.run)
    ensures forall n :: NameMoves(reg, ns, run, n) <==> Repeats.Moves(m, n)
  {
    forall n
      ensures n in ns <==> n in Names(m.tasks)
    {
      NamesIn(m.tasks, n);
    }
    forall n | n in ns
      ensures n in reg
    {
      var k :| 0 <= k < |m.tasks| && ns[k] == n;
      assert m.tasks[k] in m.tasks;
    }
    assert m.tasks[0] in m.tasks;
  }

  lemma SupplyFits(m: Moment, supply: map<Name, Task>)
    requires m.tasks != [] && Supplies(m.tasks, m.run, m.tasks[0].dependencies, supply)
    ensures Fits(m.tasks, supply, {})
  {
    forall d | d in supply
      ensures Placed(m.tasks, supply[d], false)
    {
      if d in Names(m.tasks) {
        LastIs(m.tasks, d);
      }
    }
  }

  lemma WaitingFits(m: Moment, supply: map<Name, Task>)
    requires m.tasks != [] && Supplies(m.tasks, m.run, m.tasks[0].dependencies, supply)
    ensures var pulled := Pull(m.tasks, m.tasks[0].dependencies, supply);
            var waiting := Waiting(m.tasks, m.run);
            Fits(pulled, waiting, supply.Keys) && forall d | d in waiting :: waiting[d] in pulled
  {
    var deps, waiting := m.tasks[0].dependencies, Waiting(m.tasks, m.run);
    var pulled := Pull(m.tasks, deps, supply);
    forall d | d in waiting
      ensures Placed(pulled, waiting[d], d in supply.Keys) && waiting[d] in pulled
    {
      LastIs(m.tasks, d);
      assert waiting[d] in Occ(m.tasks, d);
      OccPull(m.tasks, deps, supply, d);
      assert waiting[d] in Occ(pulled, d);
    }
  }

  lemma SameTurn(reg: Registry, rank: map<Name, nat>, m: Moment, m': Moment, ns: seq<Name>, run: set<Name>)
    requires Acyclic(reg, rank) && Same(reg, m, ns, run) && TurnOf(m, m') && Registered(reg, m'.tasks)
    ensures ns != [] && Known(reg, ns) && Same(reg, m', NextNames(reg, ns, run), NextRun(reg, ns, run))
  {
    SameFront(reg, m, ns, run);
    if Ready(m.tasks, m.run) {
      SamePop(reg, m, m', ns, run);
    } else {
      assert NoDuplicates(m.tasks) && ns == NamesOf(m.tasks) && run == Names(m.run);
      hide NextNames, Names, NamesOf, FrontIsReady, Ready, TurnOf, Acyclic;
      SamePull(reg, rank, m, m', ns, run);
    }
  }

  lemma SamePop(reg: Registry, m: Moment, m': Moment, ns: seq<Name>, run: set<Name>)
    requires Same(reg, m, ns, run) && TurnOf(m, m') && Ready(m.tasks, m.run) && ns != [] && Known(reg, ns)
    requires ns[0] == m.tasks[0].name && FrontIsReady(reg, ns, run) && Registered(reg, m'.tasks)
    ensures Same(reg, m', NextNames(reg, ns, run), NextRun(reg, ns, run))
  {
    assert m'.tasks == m.tasks[1..] && NoDuplicates(m.tasks[1..]);
    Snoc(m.run, m.tasks[0]);
    NamesCons(m.tasks);
    hide Ready, FrontIsReady, Names, NamesOf, Registered;
    assert NamesOf(m.tasks)[1..] == NamesOf(m.tasks[1..]);
  }

  lemma SamePull(reg: Registry, rank: map<Name, nat>, m: Moment, m': Moment, ns: seq<Name>, run: set<Name>)
    requires Acyclic(reg, rank) && TurnOf(m, m') && !Ready(m.tasks, m.run)
    requires NoDuplicates(m.tasks) && ns == NamesOf(m.tasks) && run == Names(m.run)
    requires ns != [] && Known(reg, ns) && !FrontIsReady(reg, ns, run) && ns[0] == m.tasks[0].name
    requires Declared(m.tasks[0], reg[ns[0]]) && forall n :: n in ns <==> n in Names(m.tasks)
    ensures NoDuplicates(m'.tasks) && NamesOf(m'.tasks) == NextNames(reg, ns, run) && m'.run == m.run
  {
    var f, waiting := m.tasks[0], Waiting(m.tasks, m.run);
    var pulled := Pull(m.tasks, f.dependencies, m'.supply);
    PullParts(m, m');
    WantedAre(reg, m, m', ns, run);
    assert NoDuplicates(f.dependencies);
    assert NextNames(reg, ns, run)
        == PullNames(PullNames(ns, f.dependencies, Missing(reg, ns, run), {}), f.orderDependencies, Waits(ns, run),
                     Missing(reg, ns, run));
    assert Supplies(m.tasks, m.run, f.dependencies, m'.supply);
    hide *;
    SupplyFits(m, m'.supply);
    WaitingFits(m, m'.supply);
    PullIs(m.tasks, f.dependencies, m'.supply, {});
    PullIs(pulled, f.orderDependencies, waiting, m'.supply.Keys);
  }

  lemma WantedAre(reg: Registry, m: Moment, m': Moment, ns: seq<Name>, run: set<Name>)
    requires TurnOf(m, m') && !Ready(m.tasks, m.run)
    requires run == Names(m.run) && ns != [] && Known(reg, ns) && Declared(m.tasks[0], reg[ns[0]])
    requires forall n :: n in ns <==> n in Names(m.tasks)
    ensures m'.supply.Keys == Missing(reg, ns, run) && Waiting(m.tasks, m.run).Keys == Waits(ns, run)
  {
    PullParts(m, m');
    hide Names, TurnOf, Ready;
  }

  /** Whatever the tasks are, the moves are those told from the names. */
  lemma {:induction false} MovesAreForecast(reg: Registry, rank: map<Name, nat>, requested: set<Name>, hist: seq<Moment>,
                                            ns: seq<Name>, run: set<Name>, n: Name)
    requires Acyclic(reg, rank) && Trace(reg, requested, hist) && Same(reg, hist[0], ns, run)
    ensures Known(reg, ns) && MoveCount(hist, n) == Moves(reg, rank, ns, run, n)
    decreases |hist|
  {
    var m := hist[0];
    assert Inv(reg, requested, m.tasks, m.run);
    hide Inv, TurnOf, Same, Acyclic, NextNames, NextRun, NameMoves, Repeats.Moves;
    if |hist| == 1 {
      NothingLeft(reg, m, ns, run, n);
    } else {
      TraceTail(reg, requested, hist);
      TasksKnown(reg, requested, hist[1]);
      TurnBegins(m, hist[1]);
      SameFront(reg, m, ns, run);
      SameTurn(reg, rank, m, hist[1], ns, run);
      NextIsSmaller(reg, rank, ns, run);
      MovesAreForecast(reg, rank, requested, hist[1..], NextNames(reg, ns, run), NextRun(reg, ns, run), n);
    }
  }

  lemma NothingLeft(reg: Registry, m: Moment, ns: seq<Name>, run: set<Name>, n: Name)
    requires Same(reg, m, ns, run) && m.tasks == []
    ensures ns == [] && Known(reg, ns) && !Repeats.Moves(m, n)
  {
  }

  lemma TasksKnown(reg: Registry, requested: set<Name>, m: Moment)
    ensures Inv(reg, requested, m.tasks, m.run) ==> Registered(reg, m.tasks)
  {
  }

  lemma TurnBegins(m: Moment, m': Moment)
    requires TurnOf(m, m')
    ensures m.tasks != []
  {
  }

  /** For all declarations and lists: the first of several equal commands is run if and only if the number of moves,
      as told from the names, is a multiple of theirs. */
  lemma FirstIsRunIff(reg: Registry, rank: map<Name, nat>, initial: seq<Task>, hist: seq<Moment>, n: Name)
    requires Acyclic(reg, rank) && Trace(reg, Names(initial), hist)
    requires hist[0].tasks == initial && hist[0].run == []
    requires NoDuplicates(initial) && n in Names(initial)
    ensures Known(reg, NamesOf(initial)) && Occ(initial, n) != []
    ensures var o := Occ(initial, n);
            o[0] in hist[|hist| - 1].run <==> Moves(reg, rank, NamesOf(initial), {}, n) % |o| == 0
  {
    assert Inv(reg, Names(initial), initial, []) && Names([]) == {};
    assert Same(reg, hist[0], NamesOf(initial), {});
    hide Trace, Inv, Same, Moves, Occ, MoveCount;
    FirstIsRunByCount(reg, initial, hist, n);
    MovesAreForecast(reg, rank, Names(initial), hist, NamesOf(initial), {}, n);
  }
}
