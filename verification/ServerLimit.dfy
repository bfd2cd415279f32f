/** The limit of connections of a server: a counter that threads raise with compare-and-swap, and lower when they
    close. */
module ServerLimit {
  import opened Counting
  import opened Runs

  /** A thread has loaded the counter, has raised it and makes its connection, or has closed one and is to lower it. */
  datatype Pc = Idle | Loaded(current: int) | Raised | Closing | Panicked

  /** A thread connects, and gets an id for its connection or not, or it closes a connection. */
  datatype Op = Connect(hasId: bool) | Close(connection: nat)

  /** Connections are known by whether they are closed; `lost` counts those that did not get an id. */
  datatype State = State(max: nat, active: int, connections: seq<bool>, lost: nat, pcs: seq<Pc>)

  ghost function Init(max: nat, threads: nat): State { State(max, 0, [], 0, seq(threads, _ => Idle)) }

  ghost function Goto(s: State, t: nat, pc: Pc): State
    requires t < |s.pcs|
  {
    s.(pcs := s.pcs[t := pc])
  }

  /** One atomic step of a thread. */
  ghost function Step(s: State, t: nat, op: Op): (r: State)
    requires t < |s.pcs|
    ensures |r.pcs| == |s.pcs| && r.max == s.max
  {
    match s.pcs[t]
    case Idle =>
      (match op
       case Connect(_) => if s.active >= s.max then s else Goto(s, t, Loaded(s.active))
       case Close(c) =>
         if c < |s.connections| && !s.connections[c] then Goto(s.(connections := s.connections[c := true]), t, Closing)
         else s)
    case Loaded(current) => if s.active == current then Goto(s.(active := current + 1), t, Raised) else Goto(s, t, Idle)
    case Raised =>
      if op == Connect(false) then Goto(s.(lost := s.lost + 1), t, Idle)
      else Goto(s.(connections := s.connections + [false]), t, Idle)
    case Closing => Goto(s.(active := s.active - 1), t, if s.active - 1 < 0 then Panicked else Idle)
    case Panicked => s
  }

  ghost function IsCounted(): Pc -> bool { (pc: Pc) => pc.Raised? || pc.Closing? }

  ghost function Open(s: State): nat { CountIf(s.connections, IsOpen()) }

  ghost predicate Inv(s: State) {
    && s.active == Open(s) + s.lost + CountIf(s.pcs, IsCounted()) && s.active <= s.max
    && forall t :: 0 <= t < |s.pcs| ==> !s.pcs[t].Panicked? && (s.pcs[t].Loaded? ==> s.pcs[t].current < s.max)
  }

  lemma StepKeepsInv(s: State, t: nat, op: Op)
    requires t < |s.pcs| && Inv(s)
    ensures Inv(Step(s, t, op))
  {
    var s' := Step(s, t, op);
    assert s'.pcs == s.pcs[t := s'.pcs[t]];
    CountIfUpdate(s.pcs, t, s'.pcs[t], IsCounted());
    CountIfPositive(s.pcs, IsCounted());
    assert IsCounted()(s.pcs[t]) <==> s.pcs[t].Raised? || s.pcs[t].Closing?;
    if s.pcs[t].Idle? && op.Close? && op.connection < |s.connections| {
      CountIfUpdate(s.connections, op.connection, true, IsOpen());
    }
    CountIfAppend(s.connections, false, IsOpen());
  }

  ghost function Next(): (State, Choice<Op>) -> State {
    (s: State, c: Choice<Op>) => if c.t < |s.pcs| then Step(s, c.t, c.op) else s
  }

  ghost function IsInv(max: nat, threads: nat): State -> bool {
    (s: State) => Inv(s) && s.max == max && |s.pcs| == threads
  }

  /** MAIN: in every interleaving the counter is the number of open connections, of those that were lost and of threads
      on their way; it stays between zero and the limit, and the panic is not reached. */
  lemma RunKeepsInv(max: nat, threads: nat, choices: seq<Choice<Op>>)
    ensures IsInv(max, threads)(Run(Next(), Init(max, threads), choices))
  {
    CountIfPositive(Init(max, threads).pcs, IsCounted());
    forall s: State, c: Choice<Op> | IsInv(max, threads)(s) && c.t < threads ensures Inv(Step(s, c.t, c.op)) {
      StepKeepsInv(s, c.t, c.op);
    }
    Always(Next(), Init(max, threads), choices, IsInv(max, threads));
  }

  /** Nobody does anything and every connection is closed. */
  ghost predicate AtRest(s: State) {
    (forall t :: 0 <= t < |s.pcs| ==> s.pcs[t].Idle?) && forall c :: 0 <= c < |s.connections| ==> s.connections[c]
  }

  /** MAIN: a connection that does not get an id takes its place forever: when all others are closed, as many are
      counted as were lost. */
  lemma LostPlaces(max: nat, threads: nat, choices: seq<Choice<Op>>)
    requires AtRest(Run(Next(), Init(max, threads), choices))
    ensures var s := Run(Next(), Init(max, threads), choices); s.active == s.lost <= max
  {
    var s := Run(Next(), Init(max, threads), choices);
    RunKeepsInv(max, threads, choices);
    CountIfPositive(s.pcs, IsCounted());
    CountIfPositive(s.connections, IsOpen());
  }

  // ------------------------------------------------------------ lost connections

  /** So many places are lost and nothing else has happened. */
  ghost function Lost(max: nat, threads: nat, n: nat): State { Init(max, threads).(active := n, lost := n) }

  lemma LoseOne(p: State -> bool, max: nat, threads: nat, n: nat)
    requires Keeps(Next(), p) && p(Lost(max, threads, n)) && n < max && threads > 0
    ensures p(Lost(max, threads, n + 1))
  {
    var s, connect := Lost(max, threads, n), Choice(0, Connect(false));
    var s1 := Next()(s, connect);
    var s2 := Next()(s1, connect);
    var s3 := Next()(s2, connect);
    assert s1 == Goto(s, 0, Loaded(n));
    UpdateTwice(s.pcs, 0, Loaded(n), Raised);
    assert s2 == Goto(s, 0, Raised).(active := n + 1);
    UpdateTwice(s.pcs, 0, Raised, Idle);
    assert s3 == Lost(max, threads, n + 1);
  }

  lemma {:induction false} LoseUpTo(p: State -> bool, max: nat, threads: nat, n: nat)
    requires Keeps(Next(), p) && p(Init(max, threads)) && n <= max && (n > 0 ==> threads > 0)
    ensures p(Lost(max, threads, n))
  {
    if n > 0 {
      LoseUpTo(p, max, threads, n - 1);
      LoseOne(p, max, threads, n - 1);
    } else {
      assert Lost(max, threads, 0) == Init(max, threads);
    }
  }

  /** Everybody is done, every connection is closed, and so many places are taken all the same. */
  ghost predicate CanLose(max: nat, threads: nat, n: nat) {
    exists s :: Reachable(Next(), Init(max, threads), s) && AtRest(s) && s.active == n
  }

  lemma {:induction false} Stays(s: State, choices: seq<Choice<Op>>)
    requires forall c :: Next()(s, c) == s
    ensures Run(Next(), s, choices) == s
    decreases |choices|
  {
    if choices != [] {
      Stays(s, choices[..|choices| - 1]);
    }
  }

  lemma NoThreadsNoLoss(max: nat, choices: seq<Choice<Op>>)
    ensures Run(Next(), Init(max, 0), choices) == Init(max, 0)
  {
    Stays(Init(max, 0), choices);
  }

  /** MAIN: any number of places up to all of them can be lost by closed connections, as soon as there is a thread. */
  lemma LosesUpToLimit(max: nat, threads: nat, n: nat)
    ensures CanLose(max, threads, n) <==> n <= max && (n > 0 ==> threads > 0)
  {
    if n <= max && (n > 0 ==> threads > 0) {
      ReachableIsKept(Next(), Init(max, threads));
      LoseUpTo(IsReachable(Next(), Init(max, threads)), max, threads, n);
      assert AtRest(Lost(max, threads, n));
    }
    forall s | Reachable(Next(), Init(max, threads), s) && AtRest(s)
      ensures s.active <= max && (threads == 0 ==> s.active == 0)
    {
      var choices :| Run(Next(), Init(max, threads), choices) == s;
      LostPlaces(max, threads, choices);
      if threads == 0 {
        NoThreadsNoLoss(max, choices);
      }
    }
  }

  /** Every place is lost, and these are the connections there have been. */
  ghost function IsLost(max: nat, threads: nat, connections: seq<bool>): State -> bool {
    (s: State) => Inv(s) && s.max == max && |s.pcs| == threads && s.lost == max && s.connections == connections
  }

  lemma LostStep(max: nat, threads: nat, connections: seq<bool>, s: State, c: Choice<Op>)
    requires IsLost(max, threads, connections)(s)
    ensures s.active == max && IsLost(max, threads, connections)(Next()(s, c))
  {
    CountIfPositive(s.pcs, IsCounted());
    CountIfPositive(s.connections, IsOpen());
    assert forall t :: 0 <= t < threads ==> !IsCounted()(s.pcs[t]);
    assert forall i :: 0 <= i < |connections| ==> !IsOpen()(connections[i]);
    if c.t < threads {
      StepKeepsInv(s, c.t, c.op);
    }
  }

  /** MAIN: once as many places are lost as there are, whatever threads are doing, no connection is answered ever
      again. */
  lemma LostForever(max: nat, threads: nat, s: State, choices: seq<Choice<Op>>)
    requires Reachable(Next(), Init(max, threads), s) && s.lost == max
    ensures var after := Run(Next(), s, choices);
            after.connections == s.connections && after.active == after.lost == max
  {
    var before :| Run(Next(), Init(max, threads), before) == s;
    RunKeepsInv(max, threads, before);
    var p := IsLost(max, threads, s.connections);
    forall s', c | p(s') ensures p(Next()(s', c)) {
      LostStep(max, threads, s.connections, s', c);
    }
    Always(Next(), s, choices, p);
    LostStep(max, threads, s.connections, Run(Next(), s, choices), Choice(0, Close(0)));
  }
}
