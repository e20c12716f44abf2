/** One-time construction guards (components/cxx/cxx_guards.cpp), as a transition system: tasks
    interleave at every take and give of the mutex and of the one counting semaphore that waiters
    of all guards share. The primitives exist and the scheduler is running from the start. */
module StaticGuards {
  import opened Machine

  /** The semaphore's largest count, INT_MAX. */
  const TOKEN_MAX: nat := 0x7FFF_FFFF

  /** Where a task is. From `AcqCheck`, `WaitCheck`, `WaitUnlock`, `Decide`, `AcqUnlock`, `DoneSet`,
      `Signal` and `DoneUnlock` it holds the mutex. */
  datatype Pc =
    | Idle
    | AcqLock(g: nat)
    | AcqCheck(g: nat)
    | WaitUnlock(g: nat)
    | WaitToken(g: nat)
    | WaitLock(g: nat)
    | WaitCheck(g: nat)
    | Decide(g: nat)
    | AcqUnlock(g: nat)
    | DoneLock(g: nat, success: bool)
    | DoneSet(g: nat, success: bool)
    | Signal(left: nat)
    | DoneUnlock
  {
    predicate HoldsMutex() {
      AcqCheck? || WaitUnlock? || WaitCheck? || Decide? || AcqUnlock? || DoneSet? || Signal? || DoneUnlock?
    }
  }

  /** The two bytes of a guard, and its history: the task now initialising, how often an acquire
      returned 1, and how often that ended in a release or an abort. */
  datatype Guard = Guard(ready: bool, pending: bool, owner: Option<nat>, won: nat, released: nat, aborted: nat)

  datatype State = State(pc: seq<Pc>, holder: Option<nat>, tokens: nat, waiting: nat, guards: seq<Guard>)

  /** What a task does next: its own code calls one of the three functions, or a call goes on. */
  datatype Choice = Acquire(g: nat) | Release(g: nat) | Abort(g: nat) | Continue

  datatype Move = Move(task: nat, choice: Choice)

  function Start(tasks: nat, guards: nat): State {
    State(seq(tasks, _ => Idle), None, 0, 0, seq(guards, _ => Guard(false, false, None, 0, 0, 0)))
  }

  /** A call may start when the task is in none; only the task whose acquire returned 1 may release
      or abort. */
  function Call(s: State, t: nat, choice: Choice): Option<State>
    requires t < |s.pc|
  {
    match choice
    case Acquire(g) => if g < |s.guards| then Some(s.(pc := s.pc[t := AcqLock(g)])) else None
    case Release(g) =>
      if g < |s.guards| && s.guards[g].owner == Some(t) then Some(s.(pc := s.pc[t := DoneLock(g, true)])) else None
    case Abort(g) =>
      if g < |s.guards| && s.guards[g].owner == Some(t) then Some(s.(pc := s.pc[t := DoneLock(g, false)])) else None
    case Continue => None
  }

  function Lock(s: State, t: nat, next: Pc): Option<State>
    requires t < |s.pc|
  {
    if s.holder == None then Some(s.(holder := Some(t), pc := s.pc[t := next])) else None
  }

  function Unlock(s: State, t: nat, next: Pc): Option<State>
    requires t < |s.pc|
  {
    Some(s.(holder := None, pc := s.pc[t := next]))
  }

  /** The next step of a call that has started; None while it is blocked. */
  function Step(s: State, t: nat): Option<State>
    requires t < |s.pc|
  {
    match s.pc[t]
    case Idle => None
    case AcqLock(g) => Lock(s, t, AcqCheck(g))
    case AcqCheck(g) =>
      if g < |s.guards| && s.guards[g].pending then
        Some(s.(waiting := s.waiting + 1, pc := s.pc[t := WaitUnlock(g)]))
      else
        Some(s.(pc := s.pc[t := Decide(g)]))
    case WaitUnlock(g) => Unlock(s, t, WaitToken(g))
    case WaitToken(g) =>
      if s.tokens > 0 then Some(s.(tokens := s.tokens - 1, pc := s.pc[t := WaitLock(g)])) else None
    case WaitLock(g) => Lock(s, t, WaitCheck(g))
    case WaitCheck(g) =>
      if g < |s.guards| && s.guards[g].pending then
        Some(s.(pc := s.pc[t := WaitUnlock(g)]))
      else
        Some(s.(waiting := if s.waiting > 0 then s.waiting - 1 else 0, pc := s.pc[t := Decide(g)]))
    case Decide(g) =>
      if g >= |s.guards| then None
      else if s.guards[g].ready then
        Some(s.(pc := s.pc[t := AcqUnlock(g)]))
      else
        var guard := s.guards[g].(pending := true, owner := Some(t), won := s.guards[g].won + 1);
        Some(s.(guards := s.guards[g := guard], pc := s.pc[t := AcqUnlock(g)]))
    case AcqUnlock(g) => Unlock(s, t, Idle)
    case DoneLock(g, success) => Lock(s, t, DoneSet(g, success))
    case DoneSet(g, success) =>
      if g >= |s.guards| then None
      else
        var was := s.guards[g];
        var guard := if success then was.(pending := false, owner := None, ready := true, released := was.released + 1)
                     else was.(pending := false, owner := None, aborted := was.aborted + 1);
        Some(s.(guards := s.guards[g := guard], pc := s.pc[t := Signal(s.waiting)]))
    case Signal(left) =>
      if left > 0 then
        Some(s.(tokens := Min(s.tokens + 1, TOKEN_MAX), pc := s.pc[t := Signal(left - 1)]))
      else
        Some(s.(pc := s.pc[t := DoneUnlock]))
    case DoneUnlock => Unlock(s, t, Idle)
  }

  function Next(s: State, m: Move): Option<State> {
    if m.task >= |s.pc| then None
    else if s.pc[m.task].Idle? then Call(s, m.task, m.choice)
    else if m.choice == Continue then Step(s, m.task)
    else None
  }

  /** A whole schedule; None as soon as one of its moves is not possible. */
  function Run(s: State, moves: seq<Move>): Option<State>
    decreases |moves|
  {
    if moves == [] then Some(s) else
    match Next(s, moves[0])
    case None => None
    case Some(s') => Run(s', moves[1..])
  }

  // ---- Counting tasks ----

  predicate InWait(p: Pc) {
    p.WaitUnlock? || p.WaitToken? || p.WaitLock? || p.WaitCheck?
  }

  predicate AtToken(p: Pc) {
    p.WaitToken?
  }

  ghost function Count(pcs: seq<Pc>, p: Pc -> bool): (n: nat)
    ensures n <= |pcs|
  {
    if pcs == [] then 0 else (if p(pcs[0]) then 1 else 0) + Count(pcs[1..], p)
  }

  ghost function Is(p: Pc -> bool, x: Pc): nat {
    if p(x) then 1 else 0
  }

  lemma {:induction false} CountUpdate(pcs: seq<Pc>, p: Pc -> bool, t: nat, x: Pc)
    requires t < |pcs|
    ensures Count(pcs[t := x], p) + Is(p, pcs[t]) == Count(pcs, p) + Is(p, x)
  {
    if t == 0 {
      assert pcs[0 := x][1..] == pcs[1..];
    } else {
      assert pcs[t := x][1..] == pcs[1..][t - 1 := x];
      CountUpdate(pcs[1..], p, t - 1, x);
    }
  }

  lemma {:induction false} CountMono(pcs: seq<Pc>, p: Pc -> bool, q: Pc -> bool)
    requires forall x :: p(x) ==> q(x)
    ensures Count(pcs, p) <= Count(pcs, q)
  {
    if pcs != [] {
      CountMono(pcs[1..], p, q);
    }
  }

  lemma {:induction false} CountZero(pcs: seq<Pc>, p: Pc -> bool)
    requires Count(pcs, p) == 0
    ensures forall t | 0 <= t < |pcs| :: !p(pcs[t])
  {
    if pcs != [] {
      CountZero(pcs[1..], p);
      forall t | 0 <= t < |pcs|
        ensures !p(pcs[t])
      {
        assert t > 0 ==> pcs[t] == pcs[1..][t - 1];
      }
    }
  }

  // ---- The invariant ----

  ghost predicate MutexInv(s: State) {
    && (s.holder.Some? ==> s.holder.value < |s.pc|)
    && forall t | 0 <= t < |s.pc| :: s.pc[t].HoldsMutex() <==> s.holder == Some(t)
  }

  /** At most one initialiser, and every acquire that returned 1 is accounted for. */
  ghost predicate GuardInv(x: Guard) {
    && !(x.ready && x.pending)
    && (x.pending <==> x.owner.Some?)
    && x.won == x.released + x.aborted + (if x.pending then 1 else 0)
    && x.released == (if x.ready then 1 else 0)
  }

  /** What a task may rely on where it is. */
  ghost predicate PcInv(guards: seq<Guard>, t: nat, p: Pc) {
    match p
    case Idle => true
    case AcqLock(g) => g < |guards|
    case AcqCheck(g) => g < |guards|
    case WaitUnlock(g) => g < |guards| && guards[g].pending
    case WaitToken(g) => g < |guards|
    case WaitLock(g) => g < |guards|
    case WaitCheck(g) => g < |guards|
    case Decide(g) => g < |guards| && !guards[g].pending
    case AcqUnlock(g) => g < |guards|
    case DoneLock(g, _) => g < |guards| && guards[g].owner == Some(t)
    case DoneSet(g, _) => g < |guards| && guards[g].owner == Some(t)
    case Signal(_) => true
    case DoneUnlock => true
  }

  ghost predicate NoPending(s: State) {
    forall g | 0 <= g < |s.guards| :: !s.guards[g].pending
  }

  ghost predicate OwnersExist(s: State) {
    forall g | 0 <= g < |s.guards| && s.guards[g].owner.Some? :: s.guards[g].owner.value < |s.pc|
  }

  /** Tokens that a signalling task still has to give. */
  ghost function ToGive(s: State): nat {
    if s.holder.Some? && s.holder.value < |s.pc| && s.pc[s.holder.value].Signal? then s.pc[s.holder.value].left else 0
  }

  ghost predicate Inv(s: State) {
    && |s.pc| <= TOKEN_MAX && s.tokens <= TOKEN_MAX
    && MutexInv(s)
    && (forall g | 0 <= g < |s.guards| :: GuardInv(s.guards[g]))
    && OwnersExist(s)
    && (forall t | 0 <= t < |s.pc| :: PcInv(s.guards, t, s.pc[t]))
    && s.waiting == Count(s.pc, InWait)
    && (NoPending(s) ==> s.tokens + ToGive(s) >= Count(s.pc, AtToken))
  }

  lemma {:induction false} NobodyCounts(n: nat, p: Pc -> bool)
    requires !p(Idle)
    ensures Count(seq(n, _ => Idle), p) == 0
  {
    if n > 0 {
      NobodyCounts(n - 1, p);
      assert seq(n, _ => Idle)[1..] == seq(n - 1, _ => Idle);
    }
  }

  lemma StartInv(tasks: nat, guards: nat)
    requires tasks <= TOKEN_MAX
    ensures Inv(Start(tasks, guards))
  {
    NobodyCounts(tasks, InWait);
    NobodyCounts(tasks, AtToken);
  }

  // ---- Every move keeps the invariant ----

  lemma MutexKept(s: State, m: Move, s': State)
    requires MutexInv(s) && Next(s, m) == Some(s')
    ensures MutexInv(s') && |s'.pc| == |s.pc| && |s'.guards| == |s.guards|
    ensures forall t | 0 <= t < |s.pc| && t != m.task :: s'.pc[t] == s.pc[t]
  {
    forall t | 0 <= t < |s'.pc|
      ensures s'.pc[t].HoldsMutex() <==> s'.holder == Some(t)
    {
      assert s.pc[t].HoldsMutex() <==> s.holder == Some(t);
      assert s.pc[m.task].HoldsMutex() <==> s.holder == Some(m.task);
    }
  }

  /** The history of a guard: once ready it stays ready and no acquire returns 1 any more. */
  ghost predicate GuardStep(x: Guard, y: Guard) {
    && (x.ready ==> y.ready)
    && x.won <= y.won && x.released <= y.released && x.aborted <= y.aborted
    && (x.ready ==> y.won == x.won)
  }

  lemma GuardsKept(s: State, m: Move, s': State)
    requires Inv(s) && Next(s, m) == Some(s')
    ensures |s'.guards| == |s.guards|
    ensures forall g | 0 <= g < |s'.guards| :: GuardInv(s'.guards[g]) && GuardStep(s.guards[g], s'.guards[g])
  {
    assert PcInv(s.guards, m.task, s.pc[m.task]);
    forall g | 0 <= g < |s'.guards|
      ensures GuardInv(s'.guards[g]) && GuardStep(s.guards[g], s'.guards[g])
    {
      assert GuardInv(s.guards[g]);
    }
  }

  lemma OwnersKept(s: State, m: Move, s': State)
    requires OwnersExist(s) && Next(s, m) == Some(s')
    ensures OwnersExist(s')
  {
    forall g | 0 <= g < |s'.guards| && s'.guards[g].owner.Some?
      ensures s'.guards[g].owner.value < |s'.pc|
    {
      assert s.guards[g].owner.Some? ==> s.guards[g].owner.value < |s.pc|;
    }
  }

  lemma PcsKept(s: State, m: Move, s': State)
    requires Inv(s) && Next(s, m) == Some(s')
    ensures forall t | 0 <= t < |s'.pc| :: PcInv(s'.guards, t, s'.pc[t])
  {
    MutexKept(s, m, s');
    OwnPcKept(s, m, s');
    assert forall g | 0 <= g < |s.guards| :: GuardInv(s.guards[g]);
    assert forall g | 0 <= g < |s.guards| :: s.guards[g].owner.Some? ==> s.guards[g].pending;
    forall t | 0 <= t < |s'.pc| && t != m.task
      ensures PcInv(s'.guards, t, s'.pc[t])
    {
      assert PcInv(s.guards, t, s.pc[t]) && (s.pc[t].HoldsMutex() <==> s.holder == Some(t));
      assert s.pc[m.task].HoldsMutex() <==> s.holder == Some(m.task);
      assert PcInv(s.guards, m.task, s.pc[m.task]);
      hide Inv, MutexInv, PcInv, GuardInv;
      OtherPcKept(s, m, s', t);
    }
  }

  lemma OwnPcKept(s: State, m: Move, s': State)
    requires Next(s, m) == Some(s') && PcInvOf(s, m.task)
    ensures PcInvOf(s', m.task)
  {
  }

  ghost predicate PcInvOf(s: State, t: nat) {
    t < |s.pc| ==> PcInv(s.guards, t, s.pc[t])
  }

  lemma OtherPcKept(s: State, m: Move, s': State, t: nat)
    requires Next(s, m) == Some(s') && t < |s.pc| && t != m.task
    requires PcInv(s.guards, t, s.pc[t]) && (s.pc[t].HoldsMutex() <==> s.holder == Some(t))
    requires PcInv(s.guards, m.task, s.pc[m.task]) && (s.pc[m.task].HoldsMutex() <==> s.holder == Some(m.task))
    requires forall g | 0 <= g < |s.guards| :: s.guards[g].owner.Some? ==> s.guards[g].pending
    ensures t < |s'.pc| && PcInv(s'.guards, t, s'.pc[t])
  {
  }

  lemma {:induction false} CountPositive(pcs: seq<Pc>, p: Pc -> bool, t: nat)
    requires t < |pcs| && p(pcs[t])
    ensures Count(pcs, p) > 0
  {
    if t > 0 {
      CountPositive(pcs[1..], p, t - 1);
    }
  }

  lemma WaitingKept(s: State, m: Move, s': State)
    requires Inv(s) && Next(s, m) == Some(s')
    ensures s'.waiting == Count(s'.pc, InWait)
  {
    hide Count;
    CountUpdate(s.pc, InWait, m.task, s'.pc[m.task]);
    if InWait(s.pc[m.task]) {
      CountPositive(s.pc, InWait, m.task);
    }
  }

  lemma TokensKept(s: State, m: Move, s': State)
    requires Inv(s) && Next(s, m) == Some(s')
    ensures s'.tokens <= TOKEN_MAX
    ensures NoPending(s') ==> s'.tokens + ToGive(s') >= Count(s'.pc, AtToken)
  {
    var t, p := m.task, s.pc[m.task];
    MutexKept(s, m, s');
    WaitingKept(s, m, s');
    TokensBounded(s, m, s');
    assert PcInv(s.guards, t, p) && (p.HoldsMutex() <==> s.holder == Some(t)) && |s.pc| <= TOKEN_MAX;
    assert s.holder.Some? ==> s.holder.value < |s.pc|;
    assert NoPending(s) ==> s.tokens + ToGive(s) >= Count(s.pc, AtToken);
    hide *;
    CountMono(s'.pc, AtToken, InWait);
    if p.DoneSet? {
      DoneSetSignals(s, m, s');
    } else if NoPending(s') {
      OneMoved(s, m, s');
      NothingBegun(s, m, s');
      BalanceKept(s, m, s', Count(s.pc, AtToken), Count(s'.pc, AtToken));
    }
  }

  lemma TokensBounded(s: State, m: Move, s': State)
    requires s.tokens <= TOKEN_MAX && Next(s, m) == Some(s')
    ensures s'.tokens <= TOKEN_MAX
  {
  }

  lemma OneMoved(s: State, m: Move, s': State)
    requires Next(s, m) == Some(s')
    ensures m.task < |s.pc| == |s'.pc|
    ensures Count(s'.pc, AtToken) + Is(AtToken, s.pc[m.task]) == Count(s.pc, AtToken) + Is(AtToken, s'.pc[m.task])
  {
    hide Count, Is;
    CountUpdate(s.pc, AtToken, m.task, s'.pc[m.task]);
  }

  lemma DoneSetSignals(s: State, m: Move, s': State)
    requires Next(s, m) == Some(s') && s.pc[m.task].DoneSet? && s.holder == Some(m.task)
    ensures s'.waiting == s.waiting && ToGive(s') == s.waiting
  {
  }

  /** Only `DoneSet` ends an initialisation. */
  lemma NothingBegun(s: State, m: Move, s': State)
    requires Next(s, m) == Some(s') && !s.pc[m.task].DoneSet? && NoPending(s')
    ensures NoPending(s)
  {
    forall g | 0 <= g < |s.guards|
      ensures !s.guards[g].pending
    {
      assert !s'.guards[g].pending;
    }
  }

  /** Tokens, given or to be given, keep up with the tasks at the semaphore in every other move. */
  lemma BalanceKept(s: State, m: Move, s': State, before: nat, after: nat)
    requires Next(s, m) == Some(s') && !s.pc[m.task].DoneSet?
    requires s.pc[m.task].HoldsMutex() <==> s.holder == Some(m.task)
    requires s.holder.Some? ==> s.holder.value < |s.pc|
    requires s.tokens + ToGive(s) >= before && s.tokens <= TOKEN_MAX && after <= TOKEN_MAX
    requires after + Is(AtToken, s.pc[m.task]) == before + Is(AtToken, s'.pc[m.task])
    requires s.pc[m.task].WaitUnlock? ==> PcInv(s.guards, m.task, s.pc[m.task]) && NoPending(s)
    ensures s'.tokens + ToGive(s') >= after
  {
    if s.holder.Some? && s.holder.value != m.task {
      assert s'.holder == s.holder && s'.pc[s.holder.value] == s.pc[s.holder.value];
    }
  }

  lemma NextInv(s: State, m: Move, s': State)
    requires Inv(s) && Next(s, m) == Some(s')
    ensures Inv(s')
  {
    hide Next, GuardInv, PcInv, Count, NoPending, ToGive, GuardStep, OwnersExist;
    MutexKept(s, m, s');
    GuardsKept(s, m, s');
    OwnersKept(s, m, s');
    PcsKept(s, m, s');
    WaitingKept(s, m, s');
    TokensKept(s, m, s');
  }

  // ---- Results about every run ----

  lemma {:induction false} RunKeeps(s: State, moves: seq<Move>, s': State)
    requires Inv(s) && Run(s, moves) == Some(s')
    ensures Inv(s') && |s'.guards| == |s.guards| && |s'.pc| == |s.pc|
    ensures forall g | 0 <= g < |s.guards| :: GuardStep(s.guards[g], s'.guards[g])
    decreases |moves|
  {
    hide Inv, Next;
    if moves != [] {
      var s1 := Next(s, moves[0]).value;
      NextInv(s, moves[0], s1);
      MutexLength(s, moves[0], s1);
      GuardsKept(s, moves[0], s1);
      RunKeeps(s1, moves[1..], s');
    }
  }

  lemma MutexLength(s: State, m: Move, s': State)
    requires Next(s, m) == Some(s')
    ensures |s'.pc| == |s.pc|
  {
  }

  /** At most one initialiser: in every interleaving no guard is ready and pending at once, and its
      acquires that returned 1 are its releases, its aborts and the one still pending. */
  lemma AtMostOneInitialiser(tasks: nat, guards: nat, moves: seq<Move>, s: State, g: nat)
    requires tasks <= TOKEN_MAX && g < guards
    requires Run(Start(tasks, guards), moves) == Some(s)
    ensures |s.guards| == guards && |s.pc| == tasks
    ensures var x := s.guards[g];
            !(x.ready && x.pending) && x.won == x.released + x.aborted + (if x.pending then 1 else 0)
    ensures s.guards[g].released <= 1
    ensures forall t, u | 0 <= t < u < tasks :: !(s.pc[t].HoldsMutex() && s.pc[u].HoldsMutex())
  {
    StartInv(tasks, guards);
    RunKeeps(Start(tasks, guards), moves, s);
    assert GuardInv(s.guards[g]);
  }

  /** How many moves of a schedule are this call. */
  ghost function Chosen(moves: seq<Move>, c: Choice): nat {
    if moves == [] then 0 else Once(moves[0], c) + Chosen(moves[1..], c)
  }

  ghost function Once(m: Move, c: Choice): nat {
    if m.choice == c then 1 else 0
  }

  /** The task is in an acquire of `g` that has not come to its result. */
  ghost function Asking(g: nat): Pc -> bool {
    (p: Pc) => (p.AcqLock? || p.AcqCheck? || InWait(p) || p.Decide?) && p.g == g
  }

  /** The task is in a release, or an abort, of `g` that has not been put into effect. */
  ghost function Ending(g: nat, success: bool): Pc -> bool {
    (p: Pc) => (p.DoneLock? || p.DoneSet?) && p.g == g && p.success == success
  }

  lemma EndCounted(s: State, m: Move, s': State, g: nat)
    requires Next(s, m) == Some(s') && g < |s.guards| && PcInvOf(s, m.task)
    ensures m.task < |s.pc| == |s'.pc| && |s'.guards| == |s.guards|
    ensures var x, y, p, p' := s.guards[g], s'.guards[g], s.pc[m.task], s'.pc[m.task];
            && Once(m, Release(g)) + x.released + Is(Ending(g, true), p) == y.released + Is(Ending(g, true), p')
            && Once(m, Abort(g)) + x.aborted + Is(Ending(g, false), p) == y.aborted + Is(Ending(g, false), p')
  {
  }

  lemma AskCounted(s: State, m: Move, s': State, g: nat)
    requires Next(s, m) == Some(s') && g < |s.guards| && PcInvOf(s, m.task)
    ensures m.task < |s.pc| == |s'.pc| && |s'.guards| == |s.guards|
    ensures var x, y := s.guards[g], s'.guards[g];
            var before := Once(m, Acquire(g)) + x.won + Is(Asking(g), s.pc[m.task]);
            var after := y.won + Is(Asking(g), s'.pc[m.task]);
            if y.ready then before >= after else before == after
  {
  }

  lemma CallCounted(s: State, m: Move, s': State, g: nat)
    requires Inv(s) && Next(s, m) == Some(s') && g < |s.guards|
    ensures |s'.guards| == |s.guards|
    ensures var x, y := s.guards[g], s'.guards[g];
            && Once(m, Release(g)) + x.released + Count(s.pc, Ending(g, true))
               == y.released + Count(s'.pc, Ending(g, true))
            && Once(m, Abort(g)) + x.aborted + Count(s.pc, Ending(g, false))
               == y.aborted + Count(s'.pc, Ending(g, false))
    ensures var x, y := s.guards[g], s'.guards[g];
            var before, after := Once(m, Acquire(g)) + x.won + Count(s.pc, Asking(g)), y.won + Count(s'.pc, Asking(g));
            if y.ready then before >= after else before == after
  {
    OneUpdated(s, m, s');
    assert PcInvOf(s, m.task);
    hide *;
    EndCounted(s, m, s', g);
    AskCounted(s, m, s', g);
    CountUpdate(s.pc, Ending(g, true), m.task, s'.pc[m.task]);
    CountUpdate(s.pc, Ending(g, false), m.task, s'.pc[m.task]);
    CountUpdate(s.pc, Asking(g), m.task, s'.pc[m.task]);
  }

  lemma OneUpdated(s: State, m: Move, s': State)
    requires Next(s, m) == Some(s')
    ensures m.task < |s.pc| == |s'.pc| && s'.pc == s.pc[m.task := s'.pc[m.task]]
  {
  }

  lemma {:induction false} CallsCounted(s: State, moves: seq<Move>, s': State, g: nat)
    requires Inv(s) && Run(s, moves) == Some(s') && g < |s.guards|
    ensures |s'.guards| == |s.guards| && (s.guards[g].ready ==> s'.guards[g].ready)
    ensures var x, y := s.guards[g], s'.guards[g];
            && Chosen(moves, Release(g)) + x.released + Count(s.pc, Ending(g, true))
               == y.released + Count(s'.pc, Ending(g, true))
            && Chosen(moves, Abort(g)) + x.aborted + Count(s.pc, Ending(g, false))
               == y.aborted + Count(s'.pc, Ending(g, false))
    ensures var x, y := s.guards[g], s'.guards[g];
            var before, after := Chosen(moves, Acquire(g)) + x.won + Count(s.pc, Asking(g)),
                                 y.won + Count(s'.pc, Asking(g));
            if y.ready then before >= after else before == after
    decreases |moves|
  {
    hide Inv, Next, Count, Once, Asking, Ending;
    if moves != [] {
      var s1 := Next(s, moves[0]).value;
      NextInv(s, moves[0], s1);
      GuardsKept(s, moves[0], s1);
      CallCounted(s, moves[0], s1, g);
      CallsCounted(s1, moves[1..], s', g);
    }
  }

  /** Every call has its own effect, in every interleaving: the releases and the aborts of a guard are those
      called, but for the ones still on their way, and no acquire returns 0 before the guard is ready. */
  lemma CallsTakeEffect(tasks: nat, guards: nat, moves: seq<Move>, s: State, g: nat)
    requires tasks <= TOKEN_MAX && g < guards
    requires Run(Start(tasks, guards), moves) == Some(s)
    ensures |s.guards| == guards
    ensures s.guards[g].released + Count(s.pc, Ending(g, true)) == Chosen(moves, Release(g))
    ensures s.guards[g].aborted + Count(s.pc, Ending(g, false)) == Chosen(moves, Abort(g))
    ensures !s.guards[g].ready ==> s.guards[g].won + Count(s.pc, Asking(g)) == Chosen(moves, Acquire(g))
    ensures s.guards[g].won + Count(s.pc, Asking(g)) <= Chosen(moves, Acquire(g))
  {
    StartInv(tasks, guards);
    NobodyCounts(tasks, Ending(g, true));
    NobodyCounts(tasks, Ending(g, false));
    NobodyCounts(tasks, Asking(g));
    hide Inv, Run, Count, Asking, Ending;
    CallsCounted(Start(tasks, guards), moves, s, g);
  }

  /** After a release, no acquire of that guard returns 1 again. */
  lemma NoneAfterRelease(tasks: nat, guards: nat, moves: seq<Move>, s: State, more: seq<Move>, s': State, g: nat)
    requires tasks <= TOKEN_MAX && g < guards
    requires Run(Start(tasks, guards), moves) == Some(s) && Run(s, more) == Some(s')
    requires |s.guards| == guards && s.guards[g].released > 0
    ensures |s'.guards| == guards
    ensures s'.guards[g].ready && !s'.guards[g].pending && s'.guards[g].won == s.guards[g].won
  {
    StartInv(tasks, guards);
    RunKeeps(Start(tasks, guards), moves, s);
    RunKeeps(s, more, s');
    assert GuardInv(s.guards[g]) && GuardInv(s'.guards[g]);
  }

  /** No waiter is stranded: the waiting count is the number of tasks inside `wait_for_guard_obj`,
      and when no guard is pending there is a token, given or about to be, for every task at the
      semaphore - whatever tokens other waiters took before. */
  lemma NoWaiterStranded(tasks: nat, guards: nat, moves: seq<Move>, s: State)
    requires tasks <= TOKEN_MAX && Run(Start(tasks, guards), moves) == Some(s)
    ensures s.waiting == Count(s.pc, InWait)
    ensures NoPending(s) ==> s.tokens + ToGive(s) >= Count(s.pc, AtToken)
  {
    StartInv(tasks, guards);
    RunKeeps(Start(tasks, guards), moves, s);
  }

  /** Every call that has started has gone as far as it can. */
  ghost predicate Quiet(s: State) {
    forall t | 0 <= t < |s.pc| :: Step(s, t) == None
  }

  ghost predicate AllIdle(s: State) {
    forall t | 0 <= t < |s.pc| :: s.pc[t].Idle?
  }

  lemma HolderCanStep(s: State)
    requires Inv(s) && s.holder.Some?
    ensures s.holder.value < |s.pc| && Step(s, s.holder.value).Some?
  {
    var h := s.holder.value;
    assert s.pc[h].HoldsMutex() <==> s.holder == Some(h);
    assert PcInv(s.guards, h, s.pc[h]);
  }

  lemma QuietShape(s: State)
    requires Inv(s) && Quiet(s)
    ensures s.holder == None
    ensures forall t | 0 <= t < |s.pc| :: s.pc[t].Idle? || (s.pc[t].WaitToken? && s.tokens == 0)
  {
    if s.holder.Some? {
      HolderCanStep(s);
    }
    forall t | 0 <= t < |s.pc|
      ensures s.pc[t].Idle? || (s.pc[t].WaitToken? && s.tokens == 0)
    {
      assert Step(s, t) == None;
      assert s.pc[t].HoldsMutex() <==> s.holder == Some(t);
    }
  }

  /** Once nothing is being initialised and every call has gone as far as it can, all calls have returned. */
  lemma QuietMeansReturned(s: State)
    requires Inv(s) && Quiet(s) && NoPending(s)
    ensures AllIdle(s)
  {
    QuietShape(s);
    if !AllIdle(s) {
      assert s.tokens == 0 && ToGive(s) == 0;
      CountZero(s.pc, AtToken);
    }
  }

  /** The task that initialises `g` is in none of the three functions, so it can go on to a release. */
  ghost predicate CanRelease(s: State, g: nat) {
    && g < |s.guards| && s.guards[g].owner.Some? && s.guards[g].owner.value < |s.pc|
    && s.pc[s.guards[g].owner.value].Idle?
  }

  /** A wait can only last while some guard is pending. A release can come next exactly if the task
      that initialises one of the pending guards is not itself inside a call. */
  lemma QuietWaitHasInitialiser(s: State, t: nat)
    requires Inv(s) && Quiet(s) && t < |s.pc| && !s.pc[t].Idle?
    ensures exists g | 0 <= g < |s.guards| :: s.guards[g].pending
    ensures (exists m: Move :: m.choice.Release? && Next(s, m).Some?) <==> exists g: nat :: CanRelease(s, g)
  {
    if NoPending(s) {
      QuietMeansReturned(s);
    }
    forall g: nat | CanRelease(s, g)
      ensures Next(s, Move(s.guards[g].owner.value, Release(g))).Some?
    {
    }
    forall m: Move | m.choice.Release? && Next(s, m).Some?
      ensures CanRelease(s, m.choice.g)
    {
      assert Step(s, m.task) == None;
    }
  }

  // ---- Calls do not run forever ----

  /** An upper bound on the steps a task can still take in its call, tokens aside. */
  ghost function Rank(p: Pc, tasks: nat): nat {
    match p
    case Idle => 0
    case AcqLock(_) => 4
    case AcqCheck(_) => 3
    case WaitUnlock(_) => 2
    case WaitToken(_) => 1
    case WaitLock(_) => 5
    case WaitCheck(_) => 4
    case Decide(_) => 2
    case AcqUnlock(_) => 1
    case DoneLock(_, _) => 7 * tasks + 4
    case DoneSet(_, _) => 7 * tasks + 3
    case Signal(left) => 7 * left + 2
    case DoneUnlock => 1
  }

  ghost function RankSum(pcs: seq<Pc>, tasks: nat): nat {
    if pcs == [] then 0 else Rank(pcs[0], tasks) + RankSum(pcs[1..], tasks)
  }

  ghost function Potential(s: State): nat {
    RankSum(s.pc, |s.pc|) + 5 * s.tokens
  }

  lemma {:induction false} RankUpdate(pcs: seq<Pc>, tasks: nat, t: nat, x: Pc)
    requires t < |pcs|
    ensures RankSum(pcs[t := x], tasks) + Rank(pcs[t], tasks) == RankSum(pcs, tasks) + Rank(x, tasks)
  {
    if t == 0 {
      assert pcs[0 := x][1..] == pcs[1..];
    } else {
      assert pcs[t := x][1..] == pcs[1..][t - 1 := x];
      RankUpdate(pcs[1..], tasks, t - 1, x);
    }
  }

  /** Each step of a started call uses up potential, although waiters loop on other waiters' tokens. */
  lemma StepUsesPotential(s: State, t: nat, s': State)
    requires Inv(s) && t < |s.pc| && Step(s, t) == Some(s')
    ensures Potential(s') < Potential(s)
  {
    hide Count, RankSum;
    RankUpdate(s.pc, |s.pc|, t, s'.pc[t]);
    assert |s'.pc| == |s.pc| && s'.pc == s.pc[t := s'.pc[t]];
  }

  /** In every interleaving the calls in progress come to rest within a bound fixed at the start of
      it, and if no guard is pending then, every one of them has returned. */
  lemma {:induction false} CallsComeToRest(s: State, moves: seq<Move>, s': State)
    requires Inv(s) && Run(s, moves) == Some(s')
    requires forall m | m in moves :: m.choice == Continue
    ensures |moves| + Potential(s') <= Potential(s)
    ensures Inv(s') && (Quiet(s') && NoPending(s') ==> AllIdle(s'))
    decreases |moves|
  {
    hide Inv, Potential, Step, Quiet, NoPending;
    if moves == [] {
      if Quiet(s) && NoPending(s) {
        QuietMeansReturned(s);
      }
    } else {
      var s1 := Next(s, moves[0]).value;
      NextInv(s, moves[0], s1);
      StepUsesPotential(s, moves[0].task, s1);
      CallsComeToRest(s1, moves[1..], s');
    }
  }

  // ---- When a waiter gets through ----

  /** Task `t` goes on with its call for `n` steps. */
  function Steps(t: nat, n: nat): seq<Move> {
    seq(n, _ => Move(t, Continue))
  }

  lemma {:induction false} RunConcat(s: State, a: seq<Move>, b: seq<Move>)
    requires Run(s, a).Some?
    ensures Run(s, a + b) == Run(Run(s, a).value, b)
    decreases |a|
  {
    hide Next;
    if a == [] {
      assert a + b == b;
    } else {
      assert (a + b)[1..] == a[1..] + b;
      RunConcat(Next(s, a[0]).value, a[1..], b);
    }
  }

  lemma RunCall(s: State, m: Move, s1: State, rest: seq<Move>)
    requires Next(s, m) == Some(s1)
    ensures Run(s, [m] + rest) == Run(s1, rest)
  {
    hide Next;
    assert ([m] + rest)[1..] == rest;
  }

  lemma RunStep(s: State, t: nat, s1: State, n: nat)
    requires t < |s.pc| && Step(s, t) == Some(s1)
    ensures Run(s, Steps(t, n + 1)) == Run(s1, Steps(t, n))
  {
    assert Steps(t, n + 1) == [Move(t, Continue)] + Steps(t, n);
    RunCall(s, Move(t, Continue), s1, Steps(t, n));
  }

  /** The task and the guard exist, and nobody holds the mutex. */
  ghost predicate Calm(s: State, t: nat, g: nat) {
    s.holder == None && t < |s.pc| && g < |s.guards|
  }

  /** The result of an acquire: 0 if the guard is ready, and else 1. */
  lemma DecideRun(s: State, t: nat, g: nat)
    requires t < |s.pc| && g < |s.guards| && s.pc[t] == Decide(g)
    ensures var x := s.guards[g];
            Run(s, Steps(t, 2))
            == Some(s.(holder := None, pc := s.pc[t := Idle],
                       guards := if x.ready then s.guards
                                 else s.guards[g := x.(pending := true, owner := Some(t), won := x.won + 1)]))
  {
    hide Run;
    var s1 := Step(s, t).value;
    var s2 := Step(s1, t).value;
    RunStep(s, t, s1, 1);
    RunStep(s1, t, s2, 0);
    RunNone(s2, t);
    assert s2.pc == s.pc[t := Idle];
  }

  lemma RunNone(s: State, t: nat)
    ensures Run(s, Steps(t, 0)) == Some(s)
  {
  }

  lemma AskRun(s: State, t: nat, g: nat, n: nat)
    requires Calm(s, t, g) && s.pc[t].Idle? && !s.guards[g].pending
    ensures Run(s, [Move(t, Acquire(g))] + Steps(t, n + 2))
            == Run(s.(holder := Some(t), pc := s.pc[t := Decide(g)]), Steps(t, n))
  {
    hide Run;
    var s1 := Call(s, t, Acquire(g)).value;
    var s2 := Step(s1, t).value;
    var s3 := Step(s2, t).value;
    RunCall(s, Move(t, Acquire(g)), s1, Steps(t, n + 2));
    RunStep(s1, t, s2, n + 1);
    RunStep(s2, t, s3, n);
    assert s3.pc == s.pc[t := Decide(g)];
  }

  /** An acquire of an untouched guard returns 1. */
  lemma WinRun(s: State, t: nat, g: nat)
    requires Calm(s, t, g) && s.pc[t].Idle? && !s.guards[g].pending && !s.guards[g].ready
    ensures var x := s.guards[g];
            Run(s, [Move(t, Acquire(g))] + Steps(t, 4))
            == Some(s.(guards := s.guards[g := x.(pending := true, owner := Some(t), won := x.won + 1)]))
  {
    hide Run, Step, Call;
    var s2 := s.(holder := Some(t), pc := s.pc[t := Decide(g)]);
    AskRun(s, t, g, 2);
    DecideRun(s2, t, g);
    assert s2.pc[t := Idle] == s.pc;
  }

  /** An acquire of a ready guard returns 0 and changes nothing. */
  lemma ReadyRun(s: State, t: nat, g: nat)
    requires Calm(s, t, g) && s.pc[t].Idle? && !s.guards[g].pending && s.guards[g].ready
    ensures Run(s, [Move(t, Acquire(g))] + Steps(t, 4)) == Some(s)
  {
    hide Run, Step, Call;
    var s2 := s.(holder := Some(t), pc := s.pc[t := Decide(g)]);
    AskRun(s, t, g, 2);
    DecideRun(s2, t, g);
    assert s2.pc[t := Idle] == s.pc;
  }

  /** An acquire of a pending guard comes to wait at the semaphore. */
  lemma BlockRun(s: State, t: nat, g: nat)
    requires Calm(s, t, g) && s.pc[t].Idle? && s.guards[g].pending
    ensures Run(s, [Move(t, Acquire(g))] + Steps(t, 3))
            == Some(s.(waiting := s.waiting + 1, pc := s.pc[t := WaitToken(g)]))
  {
    var s1 := Call(s, t, Acquire(g)).value;
    var s2 := Step(s1, t).value;
    var s3 := Step(s2, t).value;
    var s4 := Step(s3, t).value;
    RunCall(s, Move(t, Acquire(g)), s1, Steps(t, 3));
    RunStep(s1, t, s2, 2);
    RunStep(s2, t, s3, 1);
    RunStep(s3, t, s4, 0);
    assert s4.pc == s.pc[t := WaitToken(g)];
  }

  /** The signalling task gives the tokens it still has to give, and returns. */
  lemma {:induction false} SignalRun(s: State, t: nat, left: nat)
    requires t < |s.pc| && s.pc[t] == Signal(left) && s.tokens + left <= TOKEN_MAX
    ensures Run(s, Steps(t, left + 2))
            == Some(s.(tokens := s.tokens + left, holder := None, pc := s.pc[t := Idle]))
    decreases left
  {
    var s1 := Step(s, t).value;
    RunStep(s, t, s1, left + 1);
    if left > 0 {
      SignalRun(s1, t, left - 1);
      assert s1.pc[t := Idle] == s.pc[t := Idle];
    } else {
      var s2 := Step(s1, t).value;
      RunStep(s1, t, s2, 0);
      assert s2.pc == s.pc[t := Idle];
    }
  }

  /** A release gives as many tokens as there are tasks waiting. */
  lemma ReleaseRun(s: State, t: nat, g: nat)
    requires Calm(s, t, g) && s.pc[t].Idle? && s.guards[g].owner == Some(t)
    requires s.tokens + s.waiting <= TOKEN_MAX
    ensures var x := s.guards[g];
            Run(s, [Move(t, Release(g))] + Steps(t, s.waiting + 4))
            == Some(s.(tokens := s.tokens + s.waiting,
                       guards := s.guards[g := x.(pending := false, owner := None, ready := true,
                                                  released := x.released + 1)]))
  {
    EndRun(s, t, g, Release(g));
  }

  /** An abort does, too, but the guard is not ready behind it. */
  lemma AbortRun(s: State, t: nat, g: nat)
    requires Calm(s, t, g) && s.pc[t].Idle? && s.guards[g].owner == Some(t)
    requires s.tokens + s.waiting <= TOKEN_MAX
    ensures var x := s.guards[g];
            Run(s, [Move(t, Abort(g))] + Steps(t, s.waiting + 4))
            == Some(s.(tokens := s.tokens + s.waiting,
                       guards := s.guards[g := x.(pending := false, owner := None, aborted := x.aborted + 1)]))
  {
    EndRun(s, t, g, Abort(g));
  }

  /** The guard behind a release or an abort. */
  ghost function Ended(x: Guard, c: Choice): Guard {
    var y := x.(pending := false, owner := None);
    if c.Release? then y.(ready := true, released := x.released + 1) else y.(aborted := x.aborted + 1)
  }

  lemma EndRun(s: State, t: nat, g: nat, c: Choice)
    requires Calm(s, t, g) && s.pc[t].Idle? && s.guards[g].owner == Some(t) && c in {Release(g), Abort(g)}
    requires s.tokens + s.waiting <= TOKEN_MAX
    ensures Run(s, [Move(t, c)] + Steps(t, s.waiting + 4))
            == Some(s.(tokens := s.tokens + s.waiting, guards := s.guards[g := Ended(s.guards[g], c)]))
  {
    var s3 := s.(holder := Some(t), pc := s.pc[t := Signal(s.waiting)], guards := s.guards[g := Ended(s.guards[g], c)]);
    EndSets(s, t, g, c, s.waiting + 2);
    hide Run, Ended, Call, Step, Next;
    SignalRun(s3, t, s.waiting);
    assert s3.pc[t := Idle] == s.pc;
  }

  lemma EndSets(s: State, t: nat, g: nat, c: Choice, n: nat)
    requires Calm(s, t, g) && s.pc[t].Idle? && s.guards[g].owner == Some(t) && c in {Release(g), Abort(g)}
    ensures Run(s, [Move(t, c)] + Steps(t, n + 2))
            == Run(s.(holder := Some(t), pc := s.pc[t := Signal(s.waiting)],
                      guards := s.guards[g := Ended(s.guards[g], c)]), Steps(t, n))
  {
    hide Run;
    var s1 := Call(s, t, c).value;
    var s2 := Step(s1, t).value;
    var s3 := Step(s2, t).value;
    RunCall(s, Move(t, c), s1, Steps(t, n + 2));
    RunStep(s1, t, s2, n + 1);
    RunStep(s2, t, s3, n);
    assert s3.pc == s.pc[t := Signal(s.waiting)];
  }

  /** After an abort the next acquire returns 1, whichever task makes it. */
  lemma AbortedIsWonAgain(s: State, t: nat, g: nat, u: nat)
    requires Calm(s, t, g) && s.pc[t].Idle? && s.guards[g].owner == Some(t) && !s.guards[g].ready
    requires u < |s.pc| && s.pc[u].Idle? && s.tokens + s.waiting <= TOKEN_MAX
    ensures var x := s.guards[g];
            Run(s, ([Move(t, Abort(g))] + Steps(t, s.waiting + 4)) + ([Move(u, Acquire(g))] + Steps(u, 4)))
            == Some(s.(tokens := s.tokens + s.waiting,
                       guards := s.guards[g := x.(owner := Some(u), pending := true, won := x.won + 1,
                                                  aborted := x.aborted + 1)]))
  {
    hide Run, Call, Step, Next;
    var a, b := [Move(t, Abort(g))] + Steps(t, s.waiting + 4), [Move(u, Acquire(g))] + Steps(u, 4);
    AbortRun(s, t, g);
    var s1 := Run(s, a).value;
    WinRun(s1, u, g);
    RunConcat(s, a, b);
    var x := s.guards[g];
    assert s1.guards[g := x.(pending := true, owner := Some(u), won := x.won + 1, aborted := x.aborted + 1)]
        == s.guards[g := x.(pending := true, owner := Some(u), won := x.won + 1, aborted := x.aborted + 1)];
  }

  /** A waiter whose guard is not pending comes out of its wait with the next token. */
  lemma WakeRun(s: State, t: nat, g: nat)
    requires Calm(s, t, g) && s.pc[t] == WaitToken(g) && !s.guards[g].pending && s.tokens > 0 && s.waiting > 0
    ensures Run(s, Steps(t, 3))
            == Some(s.(tokens := s.tokens - 1, waiting := s.waiting - 1, holder := Some(t),
                       pc := s.pc[t := Decide(g)]))
  {
    var s1 := Step(s, t).value;
    var s2 := Step(s1, t).value;
    var s3 := Step(s2, t).value;
    hide Run;
    RunStep(s, t, s1, 2);
    RunStep(s1, t, s2, 1);
    RunStep(s2, t, s3, 0);
    RunNone(s3, t);
    assert s3.pc == s.pc[t := Decide(g)];
  }

  /** Its acquire then returns 0 if the guard is ready, and 1 if the initialisation was aborted. */
  lemma WokenReturns(s: State, t: nat, g: nat)
    requires Calm(s, t, g) && s.pc[t] == WaitToken(g) && !s.guards[g].pending && s.tokens > 0 && s.waiting > 0
    ensures var x := s.guards[g];
            Run(s, Steps(t, 3) + Steps(t, 2))
            == Some(s.(tokens := s.tokens - 1, waiting := s.waiting - 1, pc := s.pc[t := Idle],
                       guards := if x.ready then s.guards
                                 else s.guards[g := x.(pending := true, owner := Some(t), won := x.won + 1)]))
  {
    hide Run, Step;
    WakeRun(s, t, g);
    var s3 := Run(s, Steps(t, 3)).value;
    RunConcat(s, Steps(t, 3), Steps(t, 2));
    DecideRun(s3, t, g);
    assert s3.pc[t := Idle] == s.pc[t := Idle];
  }

  /** The task is not inside `wait_for_guard_obj`. */
  ghost predicate Out(s: State, t: nat) {
    t < |s.pc| && !InWait(s.pc[t])
  }

  /** Some task outside the three functions can go through an initialisation to its end: it has one
      under way, or there is a guard for it to begin with. */
  ghost predicate Help(s: State) {
    exists u, h | 0 <= u < |s.pc| && 0 <= h < |s.guards| && s.pc[u].Idle? ::
      s.guards[h].owner == Some(u) || (!s.guards[h].pending && !s.guards[h].ready)
  }

  lemma ReleaseWakes(s: State, u: nat, h: nat, t: nat, g: nat) returns (moves: seq<Move>)
    requires Calm(s, u, h) && s.pc[u].Idle? && s.guards[h].owner == Some(u) && s.tokens == 0
    requires 0 < s.waiting <= TOKEN_MAX
    requires t < |s.pc| && g < |s.guards| && s.pc[t] == WaitToken(g) && (!s.guards[g].pending || g == h)
    ensures Run(s, moves).Some? && Out(Run(s, moves).value, t)
  {
    hide Run;
    var a := [Move(u, Release(h))] + Steps(u, s.waiting + 4);
    ReleaseRun(s, u, h);
    var s1 := Run(s, a).value;
    WakeRun(s1, t, g);
    RunConcat(s, a, Steps(t, 3));
    moves := a + Steps(t, 3);
  }

  lemma HelpWakes(s: State, t: nat, g: nat) returns (moves: seq<Move>)
    requires Inv(s) && Quiet(s) && Help(s)
    requires t < |s.pc| && g < |s.guards| && s.pc[t] == WaitToken(g) && !s.guards[g].pending
    ensures Run(s, moves).Some? && Out(Run(s, moves).value, t)
  {
    QuietShape(s);
    CountPositive(s.pc, InWait, t);
    var u, h :| 0 <= u < |s.pc| && 0 <= h < |s.guards| && s.pc[u].Idle?
                && (s.guards[h].owner == Some(u) || (!s.guards[h].pending && !s.guards[h].ready));
    hide Run, Inv, Quiet;
    if s.guards[h].owner == Some(u) {
      moves := ReleaseWakes(s, u, h, t, g);
    } else {
      var a := [Move(u, Acquire(h))] + Steps(u, 4);
      WinRun(s, u, h);
      var b := ReleaseWakes(Run(s, a).value, u, h, t, g);
      RunConcat(s, a, b);
      moves := a + b;
    }
  }

  /** No token is left and nobody is about to give one; either all tasks are at the semaphore, or every
      guard is ready or being initialised by a task that is there. */
  ghost predicate Stuck(s: State) {
    && s.tokens == 0
    && (forall u | 0 <= u < |s.pc| :: !s.pc[u].DoneLock? && !s.pc[u].DoneSet? && !s.pc[u].Signal?)
    && ((forall u | 0 <= u < |s.pc| :: s.pc[u].WaitToken?)
        || forall h | 0 <= h < |s.guards| :: s.guards[h].ready || OwnerWaits(s, h))
  }

  ghost predicate OwnerWaits(s: State, h: nat)
    requires h < |s.guards|
  {
    s.guards[h].owner.Some? && s.guards[h].owner.value < |s.pc| && s.pc[s.guards[h].owner.value].WaitToken?
  }

  lemma NoHelpIsStuck(s: State)
    requires Inv(s) && Quiet(s) && !Help(s)
    ensures Stuck(s) || AllIdle(s)
  {
    QuietShape(s);
    if !AllIdle(s) && exists u | 0 <= u < |s.pc| :: s.pc[u].Idle? {
      var u :| 0 <= u < |s.pc| && s.pc[u].Idle?;
      forall h | 0 <= h < |s.guards|
        ensures s.guards[h].ready || OwnerWaits(s, h)
      {
        assert GuardInv(s.guards[h]);
        assert s.guards[h].pending || s.guards[h].ready;
        if !s.guards[h].ready {
          assert !s.pc[s.guards[h].owner.value].Idle?;
        }
      }
    }
  }

  /** No move changes that, and none moves a task that is at the semaphore. */
  lemma StuckKept(s: State, m: Move, s': State)
    requires Inv(s) && Stuck(s) && Next(s, m) == Some(s')
    ensures Stuck(s') && forall u | 0 <= u < |s.pc| && s.pc[u].WaitToken? :: u < |s'.pc| && s'.pc[u] == s.pc[u]
  {
    assert PcInv(s.guards, m.task, s.pc[m.task]);
    MutexKept(s, m, s');
    forall h | 0 <= h < |s'.guards|
      ensures s'.guards[h].ready || OwnerWaits(s', h)
    {
      assert s.guards[h].ready || OwnerWaits(s, h);
      assert GuardInv(s.guards[h]);
    }
  }

  lemma {:induction false} StuckForever(s: State, moves: seq<Move>, s': State)
    requires Inv(s) && Stuck(s) && Run(s, moves) == Some(s')
    ensures Stuck(s') && forall u | 0 <= u < |s.pc| && s.pc[u].WaitToken? :: u < |s'.pc| && s'.pc[u] == s.pc[u]
    decreases |moves|
  {
    hide Inv, Next, Stuck;
    if moves != [] {
      var s1 := Next(s, moves[0]).value;
      StuckKept(s, moves[0], s1);
      NextInv(s, moves[0], s1);
      MutexLength(s, moves[0], s1);
      StuckForever(s1, moves[1..], s');
    }
  }

  /** When every call has gone as far as it can, a waiter of a guard that is no longer pending can still
      get through if and only if some task outside the three functions can help. */
  lemma WaiterGetsThroughIff(s: State, t: nat, g: nat)
    requires Inv(s) && Quiet(s)
    requires t < |s.pc| && g < |s.guards| && s.pc[t] == WaitToken(g) && !s.guards[g].pending
    ensures (exists moves :: Run(s, moves).Some? && Out(Run(s, moves).value, t)) <==> Help(s)
  {
    if Help(s) {
      var moves := HelpWakes(s, t, g);
    } else {
      NoHelpIsStuck(s);
      forall moves | Run(s, moves).Some?
        ensures !Out(Run(s, moves).value, t)
      {
        StuckForever(s, moves, Run(s, moves).value);
      }
    }
  }

  /** A waiter whose own guard is still pending uses up a token and waits again. */
  lemma StealRun(s: State, t: nat, g: nat)
    requires Calm(s, t, g) && s.pc[t] == WaitToken(g) && s.guards[g].pending && s.tokens > 0
    ensures Run(s, Steps(t, 4)) == Some(s.(tokens := s.tokens - 1))
  {
    var s1 := Step(s, t).value;
    var s2 := Step(s1, t).value;
    var s3 := Step(s2, t).value;
    var s4 := Step(s3, t).value;
    RunStep(s, t, s1, 3);
    RunStep(s1, t, s2, 2);
    RunStep(s2, t, s3, 1);
    RunStep(s3, t, s4, 0);
    assert s4.pc == s.pc;
  }

  /** Task 1 initialises guard 1 and waits for guard 0, which is ready; task 2 waits for guard 1;
      no token is left. */
  ghost predicate Lost(s: State) {
    && |s.pc| == 3 && |s.guards| == 2
    && s.guards[0].ready && s.guards[1].owner == Some(1)
    && s.pc == [Idle, WaitToken(0), WaitToken(1)]
    && s.tokens == 0
  }

  /** Two guards, three tasks and no circular wait: task 1 initialises guard 1 and in doing so waits
      for guard 0, task 2 waits for guard 1. When task 0 releases guard 0, task 2 takes both tokens
      and goes back to waiting. Task 1 is left behind for good, although its guard is ready. */
  lemma NestedInitialiserLosesWakeup() returns (moves: seq<Move>, s: State)
    ensures Run(Start(3, 2), moves) == Some(s) && Lost(s)
    ensures forall more, s' | Run(s, more) == Some(s') :: |s'.pc| == 3 && s'.pc[1] == WaitToken(0)
  {
    hide Run;
    var s0 := Start(3, 2);
    var part := [Move(1, Acquire(1))] + Steps(1, 4);
    WinRun(s0, 1, 1);
    var s1 := Run(s0, part).value;
    moves := part;
    part := [Move(0, Acquire(0))] + Steps(0, 4);
    WinRun(s1, 0, 0);
    RunConcat(s0, moves, part);
    var s2 := Run(s1, part).value;
    moves := moves + part;
    part := [Move(1, Acquire(0))] + Steps(1, 3);
    BlockRun(s2, 1, 0);
    RunConcat(s0, moves, part);
    var s3 := Run(s2, part).value;
    moves := moves + part;
    part := [Move(2, Acquire(1))] + Steps(2, 3);
    BlockRun(s3, 2, 1);
    RunConcat(s0, moves, part);
    var s4 := Run(s3, part).value;
    moves := moves + part;
    part := [Move(0, Release(0))] + Steps(0, 6);
    assert s4.waiting == 2;
    ReleaseRun(s4, 0, 0);
    RunConcat(s0, moves, part);
    var s5 := Run(s4, part).value;
    moves := moves + part;
    part := Steps(2, 4);
    StealRun(s5, 2, 1);
    RunConcat(s0, moves, part);
    var s6 := Run(s5, part).value;
    moves := moves + part;
    StealRun(s6, 2, 1);
    RunConcat(s0, moves, part);
    s := Run(s6, part).value;
    moves := moves + part;
    LostIsStuck(moves, s);
    forall more, s' | Run(s, more) == Some(s')
      ensures |s'.pc| == 3 && s'.pc[1] == WaitToken(0)
    {
      RunKeeps(s, more, s');
      StuckForever(s, more, s');
    }
  }

  lemma LostIsStuck(moves: seq<Move>, s: State)
    requires Run(Start(3, 2), moves) == Some(s) && Lost(s)
    ensures Inv(s) && Stuck(s) && s.pc[1].WaitToken?
  {
    hide Run;
    StartInv(3, 2);
    RunKeeps(Start(3, 2), moves, s);
  }
}
