/** The connections of sessions: opening and closing handles step by step, by threads in any order. */
module ConnectionStack {
  import opened Bytes
  import opened Counting
  import opened Runs

  datatype Session<F, I> = Session(flow: F, id: I)

  /** `active` counts the handles; the stack says which session it is for. */
  datatype Stack<F, I> = Stack(of: Session<F, I>, active: int)

  datatype Handle = Handle(stack: nat, closed: bool)

  /** Threads between `LookingUp` and `Leaving`, and `Removing`, have the mutex of the repository. */
  datatype Pc<F, I> =
    | Idle
    | LookingUp(of: Session<F, I>)
    | Adding(stack: nat)
    | Rejecting(stack: nat)
    | Returning(stack: nat)
    | Closing(stack: nat)
    | Emptied(stack: nat)
    | Removing(stack: nat)
    | Leaving
    | ClosedMore
    | FlowGone

  datatype Op<F, I> = Open(of: Session<F, I>) | Close(handle: nat)

  datatype State<F(==), I(==)> = State(max: nat, mutex: Option<nat>, registry: map<F, map<I, nat>>,
                                       stacks: seq<Stack<F, I>>, handles: seq<Handle>, pcs: seq<Pc<F, I>>)

  ghost function Init<F, I>(max: nat, threads: nat): State<F, I> {
    State(max, None, map[], [], [], seq(threads, _ => Idle))
  }

  predicate Registered<F, I>(s: State<F, I>, of: Session<F, I>) {
    of.flow in s.registry && of.id in s.registry[of.flow]
  }

  function StackOf<F, I>(s: State<F, I>, of: Session<F, I>): nat
    requires Registered(s, of)
  {
    s.registry[of.flow][of.id]
  }

  // -------------------------------------------------------------------- steps

  ghost function Goto<F, I>(s: State<F, I>, t: nat, pc: Pc<F, I>): State<F, I>
    requires t < |s.pcs|
  {
    s.(pcs := s.pcs[t := pc])
  }

  predicate HasStack<F, I>(pc: Pc<F, I>) {
    pc.Adding? || pc.Rejecting? || pc.Returning? || pc.Closing? || pc.Emptied? || pc.Removing?
  }

  ghost predicate RefsOk<F(!new), I(!new)>(s: State<F, I>) {
    && (forall of :: Registered(s, of) ==> StackOf(s, of) < |s.stacks| && s.stacks[StackOf(s, of)].of == of)
    && (forall h :: 0 <= h < |s.handles| ==> s.handles[h].stack < |s.stacks|)
    && (forall t :: 0 <= t < |s.pcs| ==> (HasStack(s.pcs[t]) ==> s.pcs[t].stack < |s.stacks|))
  }

  function Register<F, I>(registry: map<F, map<I, nat>>, of: Session<F, I>, stack: nat): map<F, map<I, nat>> {
    registry[of.flow := (if of.flow in registry then registry[of.flow] else map[])[of.id := stack]]
  }

  /** Removes the session, and the flow with its last session. */
  function Unregister<F, I>(registry: map<F, map<I, nat>>, of: Session<F, I>): map<F, map<I, nat>>
    requires of.flow in registry
  {
    var byId := registry[of.flow] - {of.id};
    if byId == map[] then registry - {of.flow} else registry[of.flow := byId]
  }

  ghost function SetActive<F, I>(s: State<F, I>, stack: nat, n: int): State<F, I>
    requires stack < |s.stacks|
  {
    s.(stacks := s.stacks[stack := s.stacks[stack].(active := n)])
  }

  /** One atomic step of a thread. An idle one opens a session or closes a handle; closing again does nothing. */
  ghost function Step<F(!new), I(!new)>(s: State<F, I>, t: nat, op: Op<F, I>): (r: State<F, I>)
    requires t < |s.pcs| && RefsOk(s)
    ensures |r.pcs| == |s.pcs| && r.max == s.max
  {
    match s.pcs[t]
    case Idle =>
      (match op
       case Open(of) => if s.mutex == None then Goto(s.(mutex := Some(t)), t, LookingUp(of)) else s
       case Close(h) =>
         if h < |s.handles| && !s.handles[h].closed
         then Goto(s.(handles := s.handles[h := s.handles[h].(closed := true)]), t, Closing(s.handles[h].stack))
         else s)
    case LookingUp(of) =>
      if Registered(s, of) then Goto(s, t, Adding(StackOf(s, of)))
      else Goto(s.(registry := Register(s.registry, of, |s.stacks|), stacks := s.stacks + [Stack(of, 0)]), t,
                Adding(|s.stacks|))
    case Adding(st) =>
      var n := s.stacks[st].active + 1;
      Goto(SetActive(s, st, n), t, if s.max > 0 && n > s.max then Rejecting(st) else Returning(st))
    case Rejecting(st) => Goto(SetActive(s, st, s.stacks[st].active - 1), t, Leaving)
    case Returning(st) => Goto(s.(handles := s.handles + [Handle(st, false)], mutex := None), t, Idle)
    case Closing(st) =>
      var n := s.stacks[st].active - 1;
      Goto(SetActive(s, st, n), t, if n < 0 then ClosedMore else if n > 0 then Idle else Emptied(st))
    case Emptied(st) => if s.mutex == None then Goto(s.(mutex := Some(t)), t, Removing(st)) else s
    case Removing(st) =>
      var of := s.stacks[st].of;
      if of.flow in s.registry then Goto(s.(registry := Unregister(s.registry, of)), t, Leaving)
      else Goto(s.(mutex := None), t, FlowGone)
    case Leaving => Goto(s.(mutex := None), t, Idle)
    case ClosedMore => s
    case FlowGone => s
  }

  // ---------------------------------------------------------------- invariant

  predicate InMutex<F, I>(pc: Pc<F, I>) {
    pc.LookingUp? || pc.Adding? || pc.Rejecting? || pc.Returning? || pc.Removing? || pc.Leaving?
  }

  ghost predicate MutexOk<F, I>(s: State<F, I>) {
    forall t: nat :: s.mutex == Some(t) <==> t < |s.pcs| && InMutex(s.pcs[t])
  }

  ghost function IsLive(stack: nat): Handle -> bool { (h: Handle) => h.stack == stack && !h.closed }

  /** Threads whose handle is not yet made, or no longer open but still counted. */
  ghost function IsUsing<F, I>(stack: nat): Pc<F, I> -> bool {
    (pc: Pc<F, I>) => (pc.Returning? || pc.Closing?) && pc.stack == stack
  }

  ghost function IsRejecting<F, I>(stack: nat): Pc<F, I> -> bool {
    (pc: Pc<F, I>) => pc.Rejecting? && pc.stack == stack
  }

  ghost function Live<F, I>(s: State<F, I>, stack: nat): nat { CountIf(s.handles, IsLive(stack)) }

  ghost function Users<F, I>(s: State<F, I>, stack: nat): nat { Live(s, stack) + CountIf(s.pcs, IsUsing(stack)) }

  ghost function Rejects<F, I>(s: State<F, I>, stack: nat): nat { CountIf(s.pcs, IsRejecting(stack)) }

  ghost predicate StackOk<F, I>(s: State<F, I>, st: nat)
    requires st < |s.stacks|
  {
    && s.stacks[st].active == Users(s, st) + Rejects(s, st)
    && (s.max > 0 ==> Users(s, st) <= s.max)
    && (s.max == 0 ==> Rejects(s, st) == 0)
  }

  ghost predicate StacksOk<F, I>(s: State<F, I>) { forall st :: 0 <= st < |s.stacks| ==> StackOk(s, st) }

  ghost predicate NotClosedMore<F, I>(s: State<F, I>) { forall t :: 0 <= t < |s.pcs| ==> !s.pcs[t].ClosedMore? }

  ghost predicate Inv<F(!new), I(!new)>(s: State<F, I>) { RefsOk(s) && MutexOk(s) && StacksOk(s) && NotClosedMore(s) }

  lemma RegisterIs<F, I>(s: State<F, I>, of: Session<F, I>, stack: nat, x: Session<F, I>)
    ensures var s' := s.(registry := Register(s.registry, of, stack));
            && (Registered(s', x) <==> x == of || Registered(s, x))
            && (Registered(s', x) ==> StackOf(s', x) == if x == of then stack else StackOf(s, x))
  {
    assert x == of <==> x.flow == of.flow && x.id == of.id;
  }

  lemma UnregisterIs<F, I>(s: State<F, I>, of: Session<F, I>, x: Session<F, I>)
    requires of.flow in s.registry
    ensures var s' := s.(registry := Unregister(s.registry, of));
            && (Registered(s', x) <==> x != of && Registered(s, x))
            && (Registered(s', x) ==> StackOf(s', x) == StackOf(s, x))
  {
    assert x == of <==> x.flow == of.flow && x.id == of.id;
    assert x.id in s.registry[of.flow] && x.id != of.id ==> x.id in s.registry[of.flow] - {of.id};
  }

  /** How a step changes what is registered. */
  lemma RegisteredAfter<F(!new), I(!new)>(s: State<F, I>, t: nat, op: Op<F, I>, x: Session<F, I>)
    requires t < |s.pcs| && RefsOk(s)
    ensures var s', pc := Step(s, t, op), s.pcs[t];
            && (Registered(s', x)
                <==> (pc == LookingUp(x)) || (Registered(s, x) && !(pc.Removing? && s.stacks[pc.stack].of == x)))
            && (Registered(s', x) ==> StackOf(s', x) == if Registered(s, x) then StackOf(s, x) else |s.stacks|)
  {
    match s.pcs[t]
    case LookingUp(of) => RegisterIs(s, of, |s.stacks|, x);
    case Removing(st) =>
      if s.stacks[st].of.flow in s.registry {
        UnregisterIs(s, s.stacks[st].of, x);
      }
    case _ =>
  }

  lemma StepKeepsRefs<F(!new), I(!new)>(s: State<F, I>, t: nat, op: Op<F, I>)
    requires t < |s.pcs| && RefsOk(s)
    ensures RefsOk(Step(s, t, op))
  {
    var s' := Step(s, t, op);
    forall of | Registered(s', of) ensures StackOf(s', of) < |s'.stacks| && s'.stacks[StackOf(s', of)].of == of {
      RegisteredAfter(s, t, op, of);
    }
  }

  lemma StepKeepsMutex<F(!new), I(!new)>(s: State<F, I>, t: nat, op: Op<F, I>)
    requires t < |s.pcs| && RefsOk(s) && MutexOk(s)
    ensures MutexOk(Step(s, t, op))
  {
    var s' := Step(s, t, op);
    assert forall u: nat :: u < |s.pcs| && u != t ==> s'.pcs[u] == s.pcs[u];
  }

  /** What a step changes in the handles and the counts. */
  lemma LiveAfter<F(!new), I(!new)>(s: State<F, I>, t: nat, op: Op<F, I>, st: nat)
    requires t < |s.pcs| && RefsOk(s)
    ensures var s', pc := Step(s, t, op), s.pcs[t];
            Live(s', st) == Live(s, st) + One(pc == Returning(st)) - One(pc == Idle && s'.pcs[t] == Closing(st))
  {
    match s.pcs[t]
    case Idle =>
      if op.Close? && op.handle < |s.handles| {
        CountIfUpdate(s.handles, op.handle, s.handles[op.handle].(closed := true), IsLive(st));
      }
    case Returning(i) => CountIfAppend(s.handles, Handle(i, false), IsLive(st));
    case _ =>
  }

  lemma ActiveAfter<F(!new), I(!new)>(s: State<F, I>, t: nat, op: Op<F, I>, st: nat)
    requires t < |s.pcs| && RefsOk(s) && st < |s.stacks|
    ensures var s', pc := Step(s, t, op), s.pcs[t];
            && st < |s'.stacks| && s'.pcs == s.pcs[t := s'.pcs[t]] && s'.stacks[st].of == s.stacks[st].of
            && s'.stacks[st].active
               == s.stacks[st].active + One(pc == Adding(st)) - One(pc == Rejecting(st)) - One(pc == Closing(st))
  {
  }

  /** A thread with the mutex is the only one, so that nobody is rejecting while it adds. */
  lemma NoRejects<F(!new), I(!new)>(s: State<F, I>, t: nat, st: nat)
    requires t < |s.pcs| && MutexOk(s) && s.pcs[t].Adding?
    ensures Rejects(s, st) == 0
  {
    CountIfPositive(s.pcs, IsRejecting(st));
    forall u | 0 <= u < |s.pcs| ensures !s.pcs[u].Rejecting? {
      assert InMutex(s.pcs[u]) ==> s.mutex == Some(u) && s.mutex == Some(t);
    }
  }

  lemma StackStep<F(!new), I(!new)>(s: State<F, I>, t: nat, op: Op<F, I>, st: nat)
    requires t < |s.pcs| && RefsOk(s) && MutexOk(s) && st < |s.stacks| && StackOk(s, st)
    ensures st < |Step(s, t, op).stacks| && StackOk(Step(s, t, op), st)
  {
    var s', pc := Step(s, t, op), s.pcs[t];
    LiveAfter(s, t, op, st);
    ActiveAfter(s, t, op, st);
    CountIfUpdate(s.pcs, t, s'.pcs[t], IsUsing<F, I>(st));
    CountIfUpdate(s.pcs, t, s'.pcs[t], IsRejecting<F, I>(st));
    if pc.Adding? {
      NoRejects(s, t, st);
    }
  }

  /** A new stack is used by nobody. */
  lemma NewStack<F(!new), I(!new)>(s: State<F, I>, t: nat, op: Op<F, I>)
    requires t < |s.pcs| && RefsOk(s) && |Step(s, t, op).stacks| > |s.stacks|
    ensures StackOk(Step(s, t, op), |s.stacks|)
  {
    var s', st := Step(s, t, op), |s.stacks|;
    CountIfPositive(s'.handles, IsLive(st));
    CountIfPositive(s'.pcs, IsUsing<F, I>(st));
    CountIfPositive(s'.pcs, IsRejecting<F, I>(st));
    assert forall u :: 0 <= u < |s'.pcs| && u != t ==> s'.pcs[u] == s.pcs[u];
  }

  lemma StepKeepsStacks<F(!new), I(!new)>(s: State<F, I>, t: nat, op: Op<F, I>)
    requires t < |s.pcs| && RefsOk(s) && MutexOk(s) && StacksOk(s)
    ensures StacksOk(Step(s, t, op))
  {
    var s' := Step(s, t, op);
    forall st | 0 <= st < |s'.stacks| ensures StackOk(s', st) {
      if st < |s.stacks| {
        StackStep(s, t, op, st);
      } else {
        NewStack(s, t, op);
      }
    }
  }

  lemma ClosingIsCounted<F, I>(s: State<F, I>, t: nat)
    requires t < |s.pcs| && s.pcs[t].Closing? && s.pcs[t].stack < |s.stacks| && StackOk(s, s.pcs[t].stack)
    ensures s.stacks[s.pcs[t].stack].active > 0
  {
    var p := IsUsing<F, I>(s.pcs[t].stack);
    CountIfPositive(s.pcs, p);
    assert p(s.pcs[t]);
  }

  lemma StepNotClosedMore<F(!new), I(!new)>(s: State<F, I>, t: nat, op: Op<F, I>)
    requires t < |s.pcs| && RefsOk(s) && StacksOk(s) && NotClosedMore(s)
    ensures NotClosedMore(Step(s, t, op))
  {
    if s.pcs[t].Closing? {
      ClosingIsCounted(s, t);
    }
  }

  lemma StepKeepsInv<F(!new), I(!new)>(s: State<F, I>, t: nat, op: Op<F, I>)
    requires t < |s.pcs| && Inv(s)
    ensures Inv(Step(s, t, op))
  {
    StepKeepsRefs(s, t, op);
    StepKeepsMutex(s, t, op);
    StepKeepsStacks(s, t, op);
    StepNotClosedMore(s, t, op);
  }

  // ---------------------------------------------------------------- every run

  ghost function Next<F(!new), I(!new)>(): (State<F, I>, Choice<Op<F, I>>) -> State<F, I> {
    (s: State<F, I>, c: Choice<Op<F, I>>) => if c.t < |s.pcs| && RefsOk(s) then Step(s, c.t, c.op) else s
  }

  ghost function IsInv<F(!new), I(!new)>(max: nat, threads: nat): State<F, I> -> bool {
    (s: State<F, I>) => Inv(s) && s.max == max && |s.pcs| == threads
  }

  lemma InitOk<F(!new), I(!new)>(max: nat, threads: nat)
    ensures Inv(Init<F, I>(max, threads))
  {
  }

  lemma CountsAreBounded<F(!new), I(!new)>(s: State<F, I>)
    requires Inv(s)
    ensures WithinLimit(s)
  {
    forall st | 0 <= st < |s.stacks| ensures s.stacks[st].active >= 0 && (s.max > 0 ==> Live(s, st) <= s.max) {
      assert StackOk(s, st);
    }
  }

  ghost predicate WithinLimit<F, I>(s: State<F, I>) {
    forall st :: 0 <= st < |s.stacks| ==> s.stacks[st].active >= 0 && (s.max > 0 ==> Live(s, st) <= s.max)
  }

  lemma InvIsKept<F(!new), I(!new)>(max: nat, threads: nat)
    ensures Keeps(Next<F, I>(), IsInv<F, I>(max, threads))
  {
    forall s: State<F, I>, c: Choice<Op<F, I>> | IsInv<F, I>(max, threads)(s) && c.t < threads
      ensures Inv(Step(s, c.t, c.op))
    {
      StepKeepsInv(s, c.t, c.op);
    }
  }

  /** MAIN: in every interleaving, with any number of calls of `Close`, `active` is the number of live handles and of
      threads that count without one; it is never negative, and the live handles of a stack keep to the limit. */
  lemma RunKeepsInv<F(!new), I(!new)>(max: nat, threads: nat, choices: seq<Choice<Op<F, I>>>)
    ensures var s := Run(Next(), Init(max, threads), choices);
            Inv(s) && WithinLimit(s) && s.max == max && |s.pcs| == threads
  {
    InitOk<F, I>(max, threads);
    InvIsKept<F, I>(max, threads);
    Always(Next<F, I>(), Init(max, threads), choices, IsInv<F, I>(max, threads));
    CountsAreBounded(Run(Next<F, I>(), Init(max, threads), choices));
  }

  // ------------------------------------------------------------------- leaks

  /** A thread that is about to add to a session, or is on its way to remove it. */
  ghost predicate Guards<F, I>(s: State<F, I>, t: nat, of: Session<F, I>) {
    && t < |s.pcs|
    && match s.pcs[t]
       case Adding(st) => Registered(s, of) && st == StackOf(s, of)
       case Emptied(st) => st < |s.stacks| && s.stacks[st].of == of
       case Removing(st) => st < |s.stacks| && s.stacks[st].of == of
       case _ => false
  }

  ghost predicate Kept<F, I>(s: State<F, I>, of: Session<F, I>) {
    Registered(s, of) ==>
      StackOf(s, of) < |s.stacks| && (s.stacks[StackOf(s, of)].active > 0 || exists t :: Guards(s, t, of))
  }

  lemma GuardKept<F(!new), I(!new)>(s: State<F, I>, t: nat, op: Op<F, I>, u: nat, of: Session<F, I>)
    requires t < |s.pcs| && RefsOk(s) && MutexOk(s) && Guards(s, u, of) && u != t
    ensures Guards(Step(s, t, op), u, of)
  {
    RegisteredAfter(s, t, op, of);
    assert InMutex(s.pcs[u]) && InMutex(s.pcs[t]) ==> s.mutex == Some(u) && s.mutex == Some(t);
    if HasStack(s.pcs[u]) {
      ActiveAfter(s, t, op, s.pcs[u].stack);
    }
  }

  lemma OwnGuard<F(!new), I(!new)>(s: State<F, I>, t: nat, op: Op<F, I>, of: Session<F, I>)
    requires t < |s.pcs| && Inv(s) && Guards(s, t, of)
    ensures Kept(Step(s, t, op), of)
  {
    RegisteredAfter(s, t, op, of);
    StepKeepsRefs(s, t, op);
    assert StackOk(s, s.pcs[t].stack);
    assert s.pcs[t].Emptied? ==> Guards(Step(s, t, op), t, of);
  }

  /** A thread takes its addition back where there are others, as a single thread always does. */
  ghost predicate RejectsAmongOthers<F, I>(s: State<F, I>, t: nat) {
    t < |s.pcs| && s.pcs[t].Rejecting? ==> s.pcs[t].stack < |s.stacks| && s.stacks[s.pcs[t].stack].active > 1
  }

  lemma OwnCount<F(!new), I(!new)>(s: State<F, I>, t: nat, op: Op<F, I>, of: Session<F, I>)
    requires t < |s.pcs| && Inv(s) && RejectsAmongOthers(s, t)
             && (Registered(s, of) ==> s.stacks[StackOf(s, of)].active > 0)
    ensures Kept(Step(s, t, op), of)
  {
    var s', pc := Step(s, t, op), s.pcs[t];
    RegisteredAfter(s, t, op, of);
    StepKeepsRefs(s, t, op);
    if Registered(s', of) && Registered(s, of) {
      var st := StackOf(s, of);
      ActiveAfter(s, t, op, st);
      assert pc == Closing(st) && s'.stacks[st].active == 0 ==> Guards(s', t, of);
    } else if Registered(s', of) {
      assert Guards(s', t, of);
    }
  }

  ghost predicate NoLeak<F(!new), I(!new)>(s: State<F, I>) { forall of :: Kept(s, of) }

  lemma StepKeepsNoLeak<F(!new), I(!new)>(s: State<F, I>, t: nat, op: Op<F, I>)
    requires t < |s.pcs| && Inv(s) && RejectsAmongOthers(s, t) && NoLeak(s)
    ensures NoLeak(Step(s, t, op))
  {
    forall of ensures Kept(Step(s, t, op), of) {
      assert Kept(s, of);
      if u :| Guards(s, u, of) {
        if u == t {
          OwnGuard(s, t, op, of);
        } else {
          GuardKept(s, t, op, u, of);
          StepKeepsRefs(s, t, op);
        }
      } else {
        OwnCount(s, t, op, of);
      }
    }
  }

  /** Without a limit nobody rejects. A single thread that does has found the stack full, and leaves it so. */
  ghost predicate NobodyLeaks<F(!new), I(!new)>(s: State<F, I>) {
    Inv(s) && NoLeak(s) && (s.max == 0 || |s.pcs| <= 1) && forall t :: RejectsAmongOthers(s, t)
  }

  lemma StepRejectsAmongOthers<F(!new), I(!new)>(s: State<F, I>, t: nat, op: Op<F, I>)
    requires t < |s.pcs| && NobodyLeaks(s)
    ensures forall u :: RejectsAmongOthers(Step(s, t, op), u)
  {
    var s' := Step(s, t, op);
    StepKeepsInv(s, t, op);
    forall u: nat | u < |s'.pcs| && s'.pcs[u].Rejecting? ensures s'.stacks[s'.pcs[u].stack].active > 1 {
      var st := s'.pcs[u].stack;
      assert StackOk(s', st);
      CountIfPositive(s'.pcs, IsRejecting<F, I>(st));
      assert IsRejecting<F, I>(st)(s'.pcs[u]);
      assert s.max > 0;
      ActiveAfter(s, t, op, st);
    }
  }

  ghost function IsLeakFree<F(!new), I(!new)>(max: nat, threads: nat): State<F, I> -> bool {
    (s: State<F, I>) => NobodyLeaks(s) && s.max == max && |s.pcs| == threads
  }

  /** MAIN: without a limit, or with a single thread, a registered stack has live handles, a thread that adds to it or
      a thread on its way to remove it, in every interleaving. */
  lemma NoLeakWithoutLimit<F(!new), I(!new)>(max: nat, threads: nat, choices: seq<Choice<Op<F, I>>>)
    requires max == 0 || threads <= 1
    ensures NoLeak(Run(Next(), Init(max, threads), choices))
  {
    InitOk<F, I>(max, threads);
    forall s: State<F, I>, c: Choice<Op<F, I>> | IsLeakFree<F, I>(max, threads)(s) && c.t < threads
      ensures IsLeakFree<F, I>(max, threads)(Step(s, c.t, c.op))
    {
      StepKeepsInv(s, c.t, c.op);
      StepKeepsNoLeak(s, c.t, c.op);
      StepRejectsAmongOthers(s, c.t, c.op);
    }
    Always(Next<F, I>(), Init(max, threads), choices, IsLeakFree<F, I>(max, threads));
  }

  /** Nobody does anything and every handle is closed. */
  ghost predicate AtRest<F, I>(s: State<F, I>) {
    (forall t :: 0 <= t < |s.pcs| ==> s.pcs[t].Idle?) && forall h :: 0 <= h < |s.handles| ==> s.handles[h].closed
  }

  lemma AllClosed<F(!new), I(!new)>(s: State<F, I>, of: Session<F, I>)
    requires Inv(s) && NoLeak(s) && AtRest(s)
    ensures !Registered(s, of)
  {
    assert Kept(s, of);
    if Registered(s, of) {
      var st := StackOf(s, of);
      assert StackOk(s, st);
      CountIfPositive(s.handles, IsLive(st));
      CountIfPositive(s.pcs, IsUsing<F, I>(st));
      CountIfPositive(s.pcs, IsRejecting<F, I>(st));
    }
  }

  // -------------------------------------------------- the limit of one session

  /** A session is removed although its registered stack has come to be used again. */
  ghost predicate Stale<F(!new), I(!new)>(s: State<F, I>, t: nat)
    requires t < |s.pcs| && RefsOk(s)
  {
    s.pcs[t].Removing? && Registered(s, s.stacks[s.pcs[t].stack].of)
        && s.stacks[StackOf(s, s.stacks[s.pcs[t].stack].of)].active > 0
  }

  ghost function IsStale<F(!new), I(!new)>(): (State<F, I>, Choice<Op<F, I>>) -> bool {
    (s: State<F, I>, c: Choice<Op<F, I>>) => c.t < |s.pcs| && RefsOk(s) && Stale(s, c.t)
  }

  ghost predicate IsRegistered<F, I>(s: State<F, I>, st: nat) {
    st < |s.stacks| && Registered(s, s.stacks[st].of) && StackOf(s, s.stacks[st].of) == st
  }

  /** Stacks with users, or about to get one, are the registered ones of their sessions. */
  ghost predicate Current<F, I>(s: State<F, I>, st: nat) {
    (Users(s, st) + Rejects(s, st) > 0 ==> IsRegistered(s, st))
    && forall t :: 0 <= t < |s.pcs| && s.pcs[t] == Adding(st) ==> IsRegistered(s, st)
  }

  lemma UsersAfter<F(!new), I(!new)>(s: State<F, I>, t: nat, op: Op<F, I>, st: nat)
    requires t < |s.pcs| && RefsOk(s)
    ensures var s', pc := Step(s, t, op), s.pcs[t];
            Users(s', st) + Rejects(s', st) ==
            Users(s, st) + Rejects(s, st) + One(pc == Adding(st)) - One(pc == Rejecting(st)) - One(pc == Closing(st))
  {
    var s', pc := Step(s, t, op), s.pcs[t];
    LiveAfter(s, t, op, st);
    assert s'.pcs == s.pcs[t := s'.pcs[t]];
    CountIfUpdate(s.pcs, t, s'.pcs[t], IsUsing<F, I>(st));
    CountIfUpdate(s.pcs, t, s'.pcs[t], IsRejecting<F, I>(st));
  }

  lemma RegisteredStays<F(!new), I(!new)>(s: State<F, I>, t: nat, op: Op<F, I>, st: nat)
    requires t < |s.pcs| && Inv(s) && IsRegistered(s, st)
    requires s.pcs[t].Removing? ==> s.stacks[s.pcs[t].stack].of != s.stacks[st].of
    ensures IsRegistered(Step(s, t, op), st)
  {
    RegisteredAfter(s, t, op, s.stacks[st].of);
    ActiveAfter(s, t, op, st);
  }

  /** A thread that comes to add does so to the registered stack. */
  lemma AddsToRegistered<F(!new), I(!new)>(s: State<F, I>, t: nat, op: Op<F, I>, st: nat)
    requires t < |s.pcs| && Inv(s) && Step(s, t, op).pcs[t] == Adding(st)
    ensures IsRegistered(Step(s, t, op), st)
  {
    RegisteredAfter(s, t, op, s.pcs[t].of);
  }

  lemma StepKeepsCurrent<F(!new), I(!new)>(s: State<F, I>, t: nat, op: Op<F, I>, st: nat)
    requires t < |s.pcs| && Inv(s) && Current(s, st) && !Stale(s, t) && (st < |s.stacks| ==> StackOk(s, st))
    ensures Current(Step(s, t, op), st)
  {
    var s' := Step(s, t, op);
    UsersAfter(s, t, op, st);
    if IsRegistered(s, st) && !(s.pcs[t].Removing? && s.stacks[s.pcs[t].stack].of == s.stacks[st].of) {
      RegisteredStays(s, t, op, st);
    } else if s'.pcs[t] == Adding(st) {
      AddsToRegistered(s, t, op, st);
    } else {
      OthersNotAdding(s, t, op, st);
    }
  }

  lemma OthersNotAdding<F(!new), I(!new)>(s: State<F, I>, t: nat, op: Op<F, I>, st: nat)
    requires t < |s.pcs| && Inv(s) && Current(s, st) && Step(s, t, op).pcs[t] != Adding(st)
    requires IsRegistered(s, st) ==> s.pcs[t].Removing?
    ensures forall u :: 0 <= u < |s.pcs| ==> Step(s, t, op).pcs[u] != Adding(st)
  {
    var s' := Step(s, t, op);
    forall u | 0 <= u < |s.pcs| && u != t ensures s'.pcs[u] != Adding(st) {
      assert s'.pcs[u] == s.pcs[u];
      assert InMutex(s.pcs[u]) && InMutex(s.pcs[t]) ==> s.mutex == Some(u) && s.mutex == Some(t);
    }
  }

  ghost predicate AllCurrent<F, I>(s: State<F, I>) { forall st :: Current(s, st) }

  lemma StepKeepsAllCurrent<F(!new), I(!new)>(s: State<F, I>, t: nat, op: Op<F, I>)
    requires t < |s.pcs| && Inv(s) && AllCurrent(s) && !Stale(s, t)
    ensures AllCurrent(Step(s, t, op))
  {
    forall st ensures Current(Step(s, t, op), st) {
      StepKeepsCurrent(s, t, op, st);
    }
  }

  lemma InitIsCurrent<F(!new), I(!new)>(max: nat, threads: nat)
    ensures AllCurrent(Init<F, I>(max, threads))
  {
    forall st ensures Current(Init<F, I>(max, threads), st) {
      CountIfPositive(Init<F, I>(max, threads).pcs, IsUsing<F, I>(st));
      CountIfPositive(Init<F, I>(max, threads).pcs, IsRejecting<F, I>(st));
    }
  }

  ghost function IsCurrent<F(!new), I(!new)>(max: nat, threads: nat): State<F, I> -> bool {
    (s: State<F, I>) => Inv(s) && AllCurrent(s) && s.max == max && |s.pcs| == threads
  }

  lemma CleanIsCurrent<F(!new), I(!new)>(max: nat, threads: nat, choices: seq<Choice<Op<F, I>>>)
    requires Avoids(Next(), Init(max, threads), choices, IsStale<F, I>())
    ensures IsCurrent<F, I>(max, threads)(Run(Next(), Init(max, threads), choices))
  {
    InitOk<F, I>(max, threads);
    InitIsCurrent<F, I>(max, threads);
    forall s: State<F, I>, c: Choice<Op<F, I>> | IsCurrent<F, I>(max, threads)(s) && !IsStale<F, I>()(s, c)
      ensures IsCurrent<F, I>(max, threads)(Next<F, I>()(s, c))
    {
      if c.t < threads {
        StepKeepsInv(s, c.t, c.op);
        StepKeepsAllCurrent(s, c.t, c.op);
      }
    }
    AlwaysAvoiding(Next<F, I>(), Init(max, threads), choices, IsStale<F, I>(), IsCurrent<F, I>(max, threads));
  }

  ghost function IsLiveOf<F, I>(s: State<F, I>, of: Session<F, I>): Handle -> bool {
    (h: Handle) => h.stack < |s.stacks| && s.stacks[h.stack].of == of && !h.closed
  }

  /** The live handles of a session, whatever stacks they are of. */
  ghost function LiveOf<F, I>(s: State<F, I>, of: Session<F, I>): nat { CountIf(s.handles, IsLiveOf(s, of)) }

  lemma LiveIsRegistered<F(!new), I(!new)>(s: State<F, I>, of: Session<F, I>, h: nat)
    requires RefsOk(s) && h < |s.handles| && IsLiveOf(s, of)(s.handles[h]) && Current(s, s.handles[h].stack)
    ensures Registered(s, of) && s.handles[h].stack == StackOf(s, of)
  {
    CountIfPositive(s.handles, IsLive(s.handles[h].stack));
    assert IsLive(s.handles[h].stack)(s.handles[h]);
  }

  lemma LimitIsKept<F(!new), I(!new)>(s: State<F, I>, of: Session<F, I>)
    requires Inv(s) && AllCurrent(s) && s.max > 0
    ensures LiveOf(s, of) <= s.max
  {
    CountIfPositive(s.handles, IsLiveOf(s, of));
    forall h | 0 <= h < |s.handles| && IsLiveOf(s, of)(s.handles[h])
      ensures Registered(s, of) && s.handles[h].stack == StackOf(s, of)
    {
      assert Current(s, s.handles[h].stack);
      LiveIsRegistered(s, of, h);
    }
    if LiveOf(s, of) > 0 {
      CountIfWeaker(s.handles, IsLiveOf(s, of), IsLive(StackOf(s, of)));
      CountsAreBounded(s);
    }
  }

  /** MAIN: as long as no session is removed while it is used again, the live handles of a session keep to the limit. */
  lemma SessionLimit<F(!new), I(!new)>(max: nat, threads: nat, choices: seq<Choice<Op<F, I>>>, of: Session<F, I>)
    requires max > 0 && Avoids(Next(), Init(max, threads), choices, IsStale<F, I>())
    ensures LiveOf(Run(Next(), Init(max, threads), choices), of) <= max
  {
    CleanIsCurrent(max, threads, choices);
    LimitIsKept(Run(Next(), Init(max, threads), choices), of);
  }

  // ------------------------------------------- between the last close and removal

  /** A thread has closed the last handle of a session and is on its way to remove it. */
  ghost predicate OnTheWay<F, I>(s: State<F, I>, u: nat) {
    u < |s.pcs| && (s.pcs[u].Emptied? || s.pcs[u].Removing?) && s.pcs[u].stack < |s.stacks|
  }

  /** A session is opened while another thread is on its way to remove it. */
  ghost predicate Reopens<F, I>(s: State<F, I>, t: nat) {
    t < |s.pcs| && s.pcs[t].Adding? && s.pcs[t].stack < |s.stacks|
    && exists u: nat :: u != t && OnTheWay(s, u) && s.stacks[s.pcs[u].stack].of == s.stacks[s.pcs[t].stack].of
  }

  ghost function IsReopening<F(!new), I(!new)>(): (State<F, I>, Choice<Op<F, I>>) -> bool {
    (s: State<F, I>, c: Choice<Op<F, I>>) => Reopens(s, c.t)
  }

  /** A thread on its way is to remove a registered stack that nobody uses. */
  ghost predicate WayIsClear<F, I>(s: State<F, I>, u: nat) {
    OnTheWay(s, u) ==> IsRegistered(s, s.pcs[u].stack) && s.stacks[s.pcs[u].stack].active == 0
  }

  ghost predicate WaysAreClear<F, I>(s: State<F, I>) {
    && (forall u :: WayIsClear(s, u))
    && (forall u: nat, v: nat :: OnTheWay(s, u) && OnTheWay(s, v) && u != v ==> s.pcs[u].stack != s.pcs[v].stack)
    && forall u :: 0 <= u < |s.pcs| ==> !s.pcs[u].FlowGone?
  }

  /** A stack that nobody counts on is not closed or given back. */
  lemma NobodyLeavesEmpty<F(!new), I(!new)>(s: State<F, I>, t: nat, st: nat)
    requires t < |s.pcs| && Inv(s) && st < |s.stacks| && s.stacks[st].active == 0
    ensures s.pcs[t] != Closing(st) && s.pcs[t] != Rejecting(st)
  {
    assert StackOk(s, st);
    CountIfPositive(s.pcs, IsUsing<F, I>(st));
    CountIfPositive(s.pcs, IsRejecting<F, I>(st));
    assert !IsUsing<F, I>(st)(s.pcs[t]) && !IsRejecting<F, I>(st)(s.pcs[t]);
  }

  lemma OtherWay<F(!new), I(!new)>(s: State<F, I>, t: nat, op: Op<F, I>, u: nat)
    requires t < |s.pcs| && Inv(s) && AllCurrent(s) && WaysAreClear(s) && !Reopens(s, t) && u != t && OnTheWay(s, u)
    ensures WayIsClear(Step(s, t, op), u)
  {
    var st := s.pcs[u].stack;
    assert WayIsClear(s, u);
    NobodyLeavesEmpty(s, t, st);
    ActiveAfter(s, t, op, st);
    if s.pcs[t].Removing? {
      assert OnTheWay(s, t) && WayIsClear(s, t);
    }
    RegisteredStays(s, t, op, st);
  }

  lemma OwnWay<F(!new), I(!new)>(s: State<F, I>, t: nat, op: Op<F, I>)
    requires t < |s.pcs| && Inv(s) && AllCurrent(s) && WaysAreClear(s)
    ensures WayIsClear(Step(s, t, op), t)
    ensures !Step(s, t, op).pcs[t].FlowGone?
    ensures OnTheWay(Step(s, t, op), t) && !OnTheWay(s, t) ==> s.pcs[t] == Closing(Step(s, t, op).pcs[t].stack)
  {
    var pc := s.pcs[t];
    assert WayIsClear(s, t);
    if pc.Closing? {
      ClosingIsUser(s, t);
      assert Current(s, pc.stack);
      ActiveAfter(s, t, op, pc.stack);
      RegisteredStays(s, t, op, pc.stack);
    } else if pc.Emptied? {
      ActiveAfter(s, t, op, pc.stack);
      RegisteredStays(s, t, op, pc.stack);
    }
  }

  lemma ClosingIsUser<F(!new), I(!new)>(s: State<F, I>, t: nat)
    requires t < |s.pcs| && s.pcs[t].Closing?
    ensures Users(s, s.pcs[t].stack) > 0
  {
    var p := IsUsing<F, I>(s.pcs[t].stack);
    CountIfPositive(s.pcs, p);
    assert p(s.pcs[t]);
  }

  lemma StepKeepsWays<F(!new), I(!new)>(s: State<F, I>, t: nat, op: Op<F, I>)
    requires t < |s.pcs| && Inv(s) && AllCurrent(s) && WaysAreClear(s) && !Reopens(s, t)
    ensures WaysAreClear(Step(s, t, op))
  {
    var s' := Step(s, t, op);
    OwnWay(s, t, op);
    StepKeepsRefs(s, t, op);
    assert forall u :: 0 <= u < |s.pcs| && u != t ==> s'.pcs[u] == s.pcs[u];
    forall u ensures WayIsClear(s', u) {
      if u != t && OnTheWay(s', u) {
        OtherWay(s, t, op, u);
      }
    }
    forall u: nat | u != t && OnTheWay(s', u) && OnTheWay(s', t) ensures s'.pcs[u].stack != s'.pcs[t].stack {
      assert WayIsClear(s, u);
      NobodyLeavesEmpty(s, t, s.pcs[u].stack);
    }
  }

  lemma NotStale<F(!new), I(!new)>(s: State<F, I>, t: nat)
    requires t < |s.pcs| && Inv(s) && WaysAreClear(s)
    ensures !Stale(s, t)
  {
    assert WayIsClear(s, t);
  }

  ghost function IsUndisturbed<F(!new), I(!new)>(max: nat, threads: nat): State<F, I> -> bool {
    (s: State<F, I>) => Inv(s) && AllCurrent(s) && WaysAreClear(s) && s.max == max && |s.pcs| == threads
  }

  lemma UndisturbedStep<F(!new), I(!new)>(max: nat, threads: nat, s: State<F, I>, c: Choice<Op<F, I>>)
    requires IsUndisturbed<F, I>(max, threads)(s) && !Reopens(s, c.t)
    ensures IsUndisturbed<F, I>(max, threads)(Next<F, I>()(s, c))
  {
    if c.t < threads {
      NotStale(s, c.t);
      StepKeepsInv(s, c.t, c.op);
      StepKeepsAllCurrent(s, c.t, c.op);
      StepKeepsWays(s, c.t, c.op);
    }
  }

  lemma UndisturbedRun<F(!new), I(!new)>(max: nat, threads: nat, choices: seq<Choice<Op<F, I>>>)
    requires Avoids(Next(), Init(max, threads), choices, IsReopening<F, I>())
    ensures IsUndisturbed<F, I>(max, threads)(Run(Next(), Init(max, threads), choices))
  {
    InitOk<F, I>(max, threads);
    InitIsCurrent<F, I>(max, threads);
    forall s: State<F, I>, c: Choice<Op<F, I>> | IsUndisturbed<F, I>(max, threads)(s) && !IsReopening<F, I>()(s, c)
      ensures IsUndisturbed<F, I>(max, threads)(Next<F, I>()(s, c))
    {
      UndisturbedStep(max, threads, s, c);
    }
    AlwaysAvoiding(Next<F, I>(), Init(max, threads), choices, IsReopening<F, I>(), IsUndisturbed<F, I>(max, threads));
  }

  /** MAIN: as long as no session is opened between the close of its last handle and its removal by another thread, no
      panic is reached and the live handles of every session keep to the limit. */
  lemma Undisturbed<F(!new), I(!new)>(max: nat, threads: nat, choices: seq<Choice<Op<F, I>>>, of: Session<F, I>)
    requires Avoids(Next(), Init(max, threads), choices, IsReopening<F, I>())
    ensures var s := Run(Next(), Init(max, threads), choices);
            FlowGone !in s.pcs && ClosedMore !in s.pcs && (max > 0 ==> LiveOf(s, of) <= max)
  {
    var s := Run(Next(), Init(max, threads), choices);
    UndisturbedRun(max, threads, choices);
    if max > 0 {
      LimitIsKept(s, of);
    }
  }

  /** A single thread is never in its own way. */
  lemma SingleIsUndisturbed<F(!new), I(!new)>(max: nat, threads: nat, choices: seq<Choice<Op<F, I>>>)
    requires threads <= 1
    ensures Avoids(Next(), Init(max, threads), choices, IsReopening<F, I>())
  {
    InitOk<F, I>(max, threads);
    InvIsKept<F, I>(max, threads);
    forall s: State<F, I>, c: Choice<Op<F, I>> | IsInv<F, I>(max, threads)(s) ensures !IsReopening<F, I>()(s, c) {
      assert c.t < threads ==> c.t == 0;
      assert forall u :: OnTheWay(s, u) ==> u == 0;
    }
    NeverBad(Next<F, I>(), Init(max, threads), choices, IsReopening<F, I>(), IsInv<F, I>(max, threads));
  }

  // --------------------------------------------------- what goes wrong, in runs

  lemma Go<F(!new), I(!new)>(p: State<F, I> -> bool, s: State<F, I>, t: nat, op: Op<F, I>, next: State<F, I>)
    requires Keeps(Next(), p) && p(s) && RefsOk(s) && t < |s.pcs| && Step(s, t, op) == next
    ensures p(next) && RefsOk(next)
  {
    StepKeepsRefs(s, t, op);
    assert Next<F, I>()(s, Choice(t, op)) == next;
  }

  lemma OpenNew<F(!new), I(!new)>(p: State<F, I> -> bool, s: State<F, I>, t: nat, of: Session<F, I>)
    returns (next: State<F, I>)
    requires Keeps(Next(), p) && p(s) && RefsOk(s) && t < |s.pcs| && s.pcs[t] == Idle && s.mutex == None
    requires !Registered(s, of)
    ensures p(next) && RefsOk(next)
    ensures next
            == State(s.max, None, Register(s.registry, of, |s.stacks|), s.stacks + [Stack(of, 1)],
                     s.handles + [Handle(|s.stacks|, false)], s.pcs)
  {
    var st, registry := |s.stacks|, Register(s.registry, of, |s.stacks|);
    var s1 := Goto(s.(mutex := Some(t)), t, LookingUp(of));
    var s2 := Goto(State(s.max, Some(t), registry, s.stacks + [Stack(of, 0)], s.handles, s.pcs), t, Adding(st));
    var s3 := Goto(State(s.max, Some(t), registry, s.stacks + [Stack(of, 1)], s.handles, s.pcs), t, Returning(st));
    var s4 := Goto(State(s.max, None, registry, s.stacks + [Stack(of, 1)], s.handles + [Handle(st, false)], s.pcs), t,
                   Idle);
    Go(p, s, t, Open(of), s1);
    UpdateTwice(s.pcs, t, s1.pcs[t], s2.pcs[t]);
    Go(p, s1, t, Open(of), s2);
    UpdateTwice(s.pcs, t, s2.pcs[t], s3.pcs[t]);
    Go(p, s2, t, Open(of), s3);
    UpdateTwice(s.pcs, t, s3.pcs[t], s4.pcs[t]);
    Go(p, s3, t, Open(of), s4);
    assert s4.pcs == s.pcs;
    next := s4;
  }

  lemma OpenAgain<F(!new), I(!new)>(p: State<F, I> -> bool, s: State<F, I>, t: nat, of: Session<F, I>)
    returns (next: State<F, I>)
    requires Keeps(Next(), p) && p(s) && RefsOk(s) && t < |s.pcs| && s.pcs[t] == Idle && s.mutex == None
             && Registered(s, of)
             && (s.max > 0 ==> s.stacks[StackOf(s, of)].active < s.max)
    ensures p(next) && RefsOk(next)
    ensures next
            == SetActive(s, StackOf(s, of),
                         s.stacks[StackOf(s, of)].active + 1).(handles := s.handles + [Handle(StackOf(s, of), false)])
  {
    var st := StackOf(s, of);
    var n := s.stacks[st].active + 1;
    var s1 := Goto(s.(mutex := Some(t)), t, LookingUp(of));
    var s2 := Goto(s.(mutex := Some(t)), t, Adding(st));
    var s3 := Goto(SetActive(s, st, n).(mutex := Some(t)), t, Returning(st));
    var s4 := Goto(SetActive(s, st, n).(handles := s.handles + [Handle(st, false)]), t, Idle);
    Go(p, s, t, Open(of), s1);
    UpdateTwice(s.pcs, t, s1.pcs[t], s2.pcs[t]);
    Go(p, s1, t, Open(of), s2);
    UpdateTwice(s.pcs, t, s2.pcs[t], s3.pcs[t]);
    Go(p, s2, t, Open(of), s3);
    UpdateTwice(s.pcs, t, s3.pcs[t], s4.pcs[t]);
    Go(p, s3, t, Open(of), s4);
    assert s4.pcs == s.pcs;
    next := s4;
  }

  lemma CloseOne<F(!new), I(!new)>(p: State<F, I> -> bool, s: State<F, I>, t: nat, h: nat) returns (next: State<F, I>)
    requires Keeps(Next(), p) && p(s) && RefsOk(s) && t < |s.pcs| && s.pcs[t] == Idle && h < |s.handles|
    requires !s.handles[h].closed && s.stacks[s.handles[h].stack].active > 1
    ensures p(next) && RefsOk(next)
    ensures next
            == SetActive(s, s.handles[h].stack,
                         s.stacks[s.handles[h].stack].active - 1).(handles := s.handles[h := Handle(s.handles[h].stack,
                                                                                                    true)])
  {
    var st := s.handles[h].stack;
    var n := s.stacks[st].active - 1;
    var s1 := Goto(s.(handles := s.handles[h := Handle(st, true)]), t, Closing(st));
    var s2 := Goto(SetActive(s, st, n).(handles := s.handles[h := Handle(st, true)]), t, Idle);
    Go(p, s, t, Close(h), s1);
    UpdateTwice(s.pcs, t, s1.pcs[t], s2.pcs[t]);
    Go(p, s1, t, Close(h), s2);
    assert s2.pcs == s.pcs;
    next := s2;
  }

  lemma CloseLast<F(!new), I(!new)>(p: State<F, I> -> bool, s: State<F, I>, t: nat, h: nat) returns (next: State<F, I>)
    requires Keeps(Next(), p) && p(s) && RefsOk(s) && t < |s.pcs| && s.pcs[t] == Idle && h < |s.handles|
    requires !s.handles[h].closed && s.stacks[s.handles[h].stack].active == 1
    ensures p(next) && RefsOk(next)
    ensures next
            == Goto(SetActive(s, s.handles[h].stack, 0).(handles := s.handles[h := Handle(s.handles[h].stack, true)]),
                    t, Emptied(s.handles[h].stack))
  {
    var st := s.handles[h].stack;
    var s1 := Goto(s.(handles := s.handles[h := Handle(st, true)]), t, Closing(st));
    var s2 := Goto(SetActive(s, st, 0).(handles := s.handles[h := Handle(st, true)]), t, Emptied(st));
    Go(p, s, t, Close(h), s1);
    UpdateTwice(s.pcs, t, s1.pcs[t], s2.pcs[t]);
    Go(p, s1, t, Close(h), s2);
    next := s2;
  }

  lemma Remove<F(!new), I(!new)>(p: State<F, I> -> bool, s: State<F, I>, t: nat, st: nat) returns (next: State<F, I>)
    requires Keeps(Next(), p) && p(s) && RefsOk(s) && t < |s.pcs| && s.pcs[t] == Emptied(st) && s.mutex == None
    requires s.stacks[st].of.flow in s.registry
    ensures p(next) && RefsOk(next) && next == Goto(s.(registry := Unregister(s.registry, s.stacks[st].of)), t, Idle)
  {
    var after := Unregister(s.registry, s.stacks[st].of);
    var s1 := Goto(s.(mutex := Some(t)), t, Removing(st));
    var s2 := Goto(s.(mutex := Some(t), registry := after), t, Leaving);
    var s3 := Goto(s.(registry := after), t, Idle);
    Go(p, s, t, Close(0), s1);
    UpdateTwice(s.pcs, t, s1.pcs[t], s2.pcs[t]);
    Go(p, s1, t, Close(0), s2);
    UpdateTwice(s.pcs, t, s2.pcs[t], s3.pcs[t]);
    Go(p, s2, t, Close(0), s3);
    next := s3;
  }

  lemma RemoveGone<F(!new), I(!new)>(p: State<F, I> -> bool, s: State<F, I>, t: nat, st: nat)
    returns (next: State<F, I>)
    requires Keeps(Next(), p) && p(s) && RefsOk(s) && t < |s.pcs| && s.pcs[t] == Emptied(st) && s.mutex == None
    requires s.stacks[st].of.flow !in s.registry
    ensures p(next) && RefsOk(next) && next == Goto(s, t, FlowGone)
  {
    var s1 := Goto(s.(mutex := Some(t)), t, Removing(st));
    var s2 := Goto(s, t, FlowGone);
    Go(p, s, t, Close(0), s1);
    UpdateTwice(s.pcs, t, s1.pcs[t], s2.pcs[t]);
    Go(p, s1, t, Close(0), s2);
    next := s2;
  }

  lemma RejectHalf<F(!new), I(!new)>(p: State<F, I> -> bool, s: State<F, I>, t: nat, of: Session<F, I>)
    returns (next: State<F, I>)
    requires Keeps(Next(), p) && p(s) && RefsOk(s) && t < |s.pcs| && s.pcs[t] == Idle && s.mutex == None
             && Registered(s, of)
             && s.max > 0 && s.stacks[StackOf(s, of)].active == s.max
    ensures p(next) && RefsOk(next)
    ensures next == Goto(SetActive(s, StackOf(s, of), s.max + 1).(mutex := Some(t)), t, Rejecting(StackOf(s, of)))
  {
    var st := StackOf(s, of);
    var s1 := Goto(s.(mutex := Some(t)), t, LookingUp(of));
    var s2 := Goto(s.(mutex := Some(t)), t, Adding(st));
    var s3 := Goto(SetActive(s, st, s.max + 1).(mutex := Some(t)), t, Rejecting(st));
    Go(p, s, t, Open(of), s1);
    UpdateTwice(s.pcs, t, s1.pcs[t], s2.pcs[t]);
    Go(p, s1, t, Open(of), s2);
    UpdateTwice(s.pcs, t, s2.pcs[t], s3.pcs[t]);
    Go(p, s2, t, Open(of), s3);
    next := s3;
  }

  lemma RejectRest<F(!new), I(!new)>(p: State<F, I> -> bool, s: State<F, I>, t: nat, st: nat)
    returns (next: State<F, I>)
    requires Keeps(Next(), p) && p(s) && RefsOk(s) && t < |s.pcs| && s.pcs[t] == Rejecting(st) && s.mutex == Some(t)
    ensures p(next) && RefsOk(next) && next == Goto(SetActive(s, st, s.stacks[st].active - 1).(mutex := None), t, Idle)
  {
    var s1 := Goto(SetActive(s, st, s.stacks[st].active - 1), t, Leaving);
    var s2 := Goto(SetActive(s, st, s.stacks[st].active - 1).(mutex := None), t, Idle);
    Go(p, s, t, Close(0), s1);
    UpdateTwice(s.pcs, t, s1.pcs[t], s2.pcs[t]);
    Go(p, s1, t, Close(0), s2);
    next := s2;
  }

  /** One session with a stack after some others, and so many live handles of it. */
  ghost function Opened<F, I>(max: nat, threads: nat, of: Session<F, I>, stacks: seq<Stack<F, I>>, handles: seq<Handle>,
                              n: nat): State<F, I> {
    State(max, None, map[of.flow := map[of.id := |stacks|]], stacks + [Stack(of, n)],
          handles + seq(n, _ => Handle(|stacks|, false)), seq(threads, _ => Idle))
  }

  lemma {:induction false} OpenUpTo<F(!new), I(!new)>(p: State<F, I> -> bool, max: nat, threads: nat, of: Session<F, I>,
                                                      stacks: seq<Stack<F, I>>, handles: seq<Handle>, n: nat)
    requires Keeps(Next(), p) && p(Opened(max, threads, of, stacks, handles, 1))
    requires RefsOk(Opened(max, threads, of, stacks, handles, 1))
    requires 1 <= n <= max && threads >= 2
    ensures p(Opened(max, threads, of, stacks, handles, n)) && RefsOk(Opened(max, threads, of, stacks, handles, n))
  {
    if n > 1 {
      OpenUpTo(p, max, threads, of, stacks, handles, n - 1);
      var s := Opened(max, threads, of, stacks, handles, n - 1);
      assert StackOf(s, of) == |stacks| && s.stacks[|stacks|] == Stack(of, n - 1);
      var next := OpenAgain(p, s, 1, of);
      assert seq(n, _ => Handle(|stacks|, false))
             == seq(n - 1, _ => Handle(|stacks|, false)) + [Handle(|stacks|, false)];
      assert next == Opened(max, threads, of, stacks, handles, n);
    }
  }

  /** While a thread is being rejected, some of the handles have been closed. */
  ghost function ClosedSome<F, I>(max: nat, threads: nat, of: Session<F, I>, n: nat): State<F, I> {
    State(max, Some(1), map[of.flow := map[of.id := 0]], [Stack(of, max + 1 - n)],
          seq(max, i => Handle(0, i < n)), TwoOf(threads, Idle, Rejecting(0), Idle))
  }

  lemma {:induction false} CloseUpTo<F(!new), I(!new)>(p: State<F, I> -> bool, max: nat, threads: nat,
                                                       of: Session<F, I>, n: nat)
    requires Keeps(Next(), p) && p(ClosedSome(max, threads, of, 0)) && RefsOk(ClosedSome(max, threads, of, 0))
    requires n <= max && threads >= 2
    ensures p(ClosedSome(max, threads, of, n)) && RefsOk(ClosedSome(max, threads, of, n))
  {
    if n > 0 {
      CloseUpTo(p, max, threads, of, n - 1);
      var s := ClosedSome(max, threads, of, n - 1);
      var next := CloseOne(p, s, 0, n - 1);
      assert next == ClosedSome(max, threads, of, n);
    }
  }

  /** All handles are opened and one more is asked for; before the addition for that one is taken back, all are
      closed. */
  lemma Leak<F(!new), I(!new)>(p: State<F, I> -> bool, max: nat, threads: nat, of: Session<F, I>)
    returns (s: State<F, I>)
    requires Keeps(Next(), p) && p(Init(max, threads)) && max > 0 && threads >= 2
    ensures p(s) && AtRest(s) && Registered(s, of)
  {
    s := OpenNew(p, Init(max, threads), 0, of);
    assert s == Opened(max, threads, of, [], [], 1);
    OpenUpTo(p, max, threads, of, [], [], max);
    s := Opened(max, threads, of, [], [], max);
    assert StackOf(s, of) == 0 && s.stacks[0] == Stack(of, max);
    s := RejectHalf(p, s, 1, of);
    assert s == ClosedSome(max, threads, of, 0);
    CloseUpTo(p, max, threads, of, max);
    s := RejectRest(p, ClosedSome(max, threads, of, max), 1, 0);
  }

  /** A handle is opened again before the session, on its last close, is removed. */
  lemma TooMany<F(!new), I(!new)>(p: State<F, I> -> bool, max: nat, threads: nat, of: Session<F, I>)
    returns (s: State<F, I>)
    requires Keeps(Next(), p) && p(Init(max, threads)) && max > 0 && threads >= 2
    ensures p(s) && LiveOf(s, of) == max + 1
  {
    var first := [Handle(0, true), Handle(0, false)];
    s := Reopened(p, max, threads, of);
    s := Remove(p, s, 0, 0);
    assert s.registry == map[];
    s := OpenNew(p, s, 1, of);
    assert s == Opened(max, threads, of, [Stack(of, 1)], first, 1);
    OpenUpTo(p, max, threads, of, [Stack(of, 1)], first, max);
    s := Opened(max, threads, of, [Stack(of, 1)], first, max);
    var more := seq(max, _ => Handle(1, false));
    CountIfConcat(first, more, IsLiveOf(s, of));
    CountIfAll(more, IsLiveOf(s, of));
    assert CountIf(first[1..], IsLiveOf(s, of)) == 1 by {
      CountIfAll(first[1..], IsLiveOf(s, of));
    }
  }

  lemma Reopened<F(!new), I(!new)>(p: State<F, I> -> bool, max: nat, threads: nat, of: Session<F, I>)
    returns (s: State<F, I>)
    requires Keeps(Next(), p) && p(Init(max, threads)) && threads >= 2
    ensures p(s) && RefsOk(s)
    ensures s == State(max, None, map[of.flow := map[of.id := 0]], [Stack(of, 1)], [Handle(0, true), Handle(0, false)],
                       TwoOf(threads, Emptied(0), Idle, Idle))
  {
    s := OpenNew(p, Init(max, threads), 0, of);
    assert s == Opened(max, threads, of, [], [], 1);
    s := CloseLast(p, s, 0, 0);
    assert StackOf(s, of) == 0 && s.stacks == [Stack(of, 0)];
    s := OpenAgain(p, s, 1, of);
    assert s.pcs == TwoOf(threads, Emptied(0), Idle, Idle);
  }

  /** Two threads remove the same session. */
  lemma RemovedTwice<F(!new), I(!new)>(p: State<F, I> -> bool, max: nat, threads: nat, of: Session<F, I>)
    returns (s: State<F, I>)
    requires Keeps(Next(), p) && p(Init(max, threads)) && threads >= 2
    ensures p(s) && FlowGone in s.pcs
  {
    s := Reopened(p, max, threads, of);
    s := CloseLast(p, s, 1, 1);
    s := Remove(p, s, 1, 0);
    assert s.registry == map[];
    s := RemoveGone(p, s, 0, 0);
    assert s.pcs[0] == FlowGone;
  }

  ghost predicate CanBe<F(!new), I(!new)>(max: nat, threads: nat, s: State<F, I>) {
    Reachable(Next(), Init(max, threads), s)
  }

  /** A session stays registered although nobody does anything and every handle is closed. */
  ghost predicate CanLeak<F(!new), I(!new)>(max: nat, threads: nat, of: Session<F, I>) {
    exists s: State<F, I> :: CanBe(max, threads, s) && AtRest(s) && Registered(s, of)
  }

  /** MAIN: stacks can leak exactly if there is a limit, whatever it is, and more than one thread. */
  lemma LeaksIffLimited<F(!new), I(!new)>(max: nat, threads: nat, of: Session<F, I>)
    ensures CanLeak(max, threads, of) <==> max > 0 && threads >= 2
  {
    if max > 0 && threads >= 2 {
      ReachableIsKept(Next<F, I>(), Init(max, threads));
      var s := Leak(IsReachable(Next<F, I>(), Init(max, threads)), max, threads, of);
      assert CanBe(max, threads, s);
    } else {
      forall s: State<F, I> | CanBe(max, threads, s) && AtRest(s) ensures !Registered(s, of) {
        var choices :| Run(Next(), Init(max, threads), choices) == s;
        RunKeepsInv(max, threads, choices);
        NoLeakWithoutLimit(max, threads, choices);
        AllClosed(s, of);
      }
    }
  }

  /** There is a limit, and a session has more live handles. */
  ghost predicate CanExceed<F(!new), I(!new)>(max: nat, threads: nat, of: Session<F, I>) {
    max > 0 && exists s: State<F, I> :: CanBe(max, threads, s) && LiveOf(s, of) > max
  }

  /** MAIN: the live handles of a session can exceed a limit, whatever it is, exactly if there is more than one
      thread. */
  lemma ExceedsIffTwoThreads<F(!new), I(!new)>(max: nat, threads: nat, of: Session<F, I>)
    ensures CanExceed(max, threads, of) <==> max > 0 && threads >= 2
  {
    if max > 0 && threads >= 2 {
      ReachableIsKept(Next<F, I>(), Init(max, threads));
      var s := TooMany(IsReachable(Next<F, I>(), Init(max, threads)), max, threads, of);
      assert CanBe(max, threads, s);
    } else if max > 0 {
      forall s: State<F, I> | CanBe(max, threads, s) ensures LiveOf(s, of) <= max {
        var choices :| Run(Next(), Init(max, threads), choices) == s;
        SingleIsUndisturbed(max, threads, choices);
        Undisturbed(max, threads, choices, of);
      }
    }
  }

  ghost predicate CanPanic<F(!new), I(!new)>(max: nat, threads: nat) {
    exists s: State<F, I> :: CanBe(max, threads, s) && FlowGone in s.pcs
  }

  /** MAIN: the panic over a missing flow can be reached, with or without a limit, exactly if there is more than one
      thread. */
  lemma PanicsIffTwoThreads<F(!new), I(!new)>(max: nat, threads: nat, of: Session<F, I>)
    ensures CanPanic<F, I>(max, threads) <==> threads >= 2
  {
    if threads >= 2 {
      ReachableIsKept(Next<F, I>(), Init(max, threads));
      var s := RemovedTwice(IsReachable(Next<F, I>(), Init(max, threads)), max, threads, of);
      assert CanBe(max, threads, s);
    } else {
      forall s: State<F, I> | CanBe(max, threads, s) ensures FlowGone !in s.pcs {
        var choices :| Run(Next(), Init(max, threads), choices) == s;
        SingleIsUndisturbed(max, threads, choices);
        Undisturbed(max, threads, choices, of);
      }
    }
  }
}
