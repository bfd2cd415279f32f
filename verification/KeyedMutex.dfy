/** The mutex per key: threads that take one atomic step at a time, in any order. */
module KeyedMutex {
  import opened Bytes
  import opened Counting
  import opened Runs

  datatype Mode = Read | Write

  /** A `sync.RWMutex` and who has it. */
  datatype RwLock = RwLock(writer: Option<nat>, readers: set<nat>)

  const FREE: RwLock := RwLock(None, {})

  predicate CanLock(l: RwLock, mode: Mode) { l.writer == None && (mode == Write ==> l.readers == {}) }

  function Locked(l: RwLock, t: nat, mode: Mode): RwLock {
    if mode == Write then l.(writer := Some(t)) else l.(readers := l.readers + {t})
  }

  function Unlocked(l: RwLock, t: nat, mode: Mode): RwLock {
    if mode == Write then l.(writer := None) else l.(readers := l.readers - {t})
  }

  datatype Instance<K> = Instance(key: K, lock: RwLock, holds: int)

  /** Where a thread is; `uber` tells whether it still holds the write lock of the whole. */
  datatype Pc<K> =
    | Idle
    | Reading(key: K, mode: Mode)
    | FoundReading(inst: nat, mode: Mode)
    | MissedReading(key: K, mode: Mode)
    | Missed(key: K, mode: Mode)
    | Writing(key: K, mode: Mode)
    | Entering(inst: nat, mode: Mode, uber: bool)
    | Waiting(inst: nat, mode: Mode, uber: bool)
    | Acquired(inst: nat, mode: Mode)
    | Held(inst: nat, mode: Mode)
    | Released(inst: nat)
    | Dropping(inst: nat)
    | Deleting(inst: nat)
    | Deleted
    | Panicked

  datatype State<K(==)> = State(uber: RwLock, table: map<K, nat>, insts: seq<Instance<K>>, pcs: seq<Pc<K>>)

  ghost function Init<K>(threads: nat): State<K> { State(FREE, map[], [], seq(threads, _ => Idle)) }

  // -------------------------------------------------------------------- steps

  ghost predicate RefsOk<K>(s: State<K>) {
    && (forall k :: k in s.table ==> s.table[k] < |s.insts| && s.insts[s.table[k]].key == k)
    && (forall t :: 0 <= t < |s.pcs| ==> (InstOf(s.pcs[t]).Some? ==> InstOf(s.pcs[t]).value < |s.insts|))
  }

  function InstOf<K>(pc: Pc<K>): Option<nat> {
    match pc
    case FoundReading(i, _) => Some(i)
    case Entering(i, _, _) => Some(i)
    case Waiting(i, _, _) => Some(i)
    case Acquired(i, _) => Some(i)
    case Held(i, _) => Some(i)
    case Released(i) => Some(i)
    case Dropping(i) => Some(i)
    case Deleting(i) => Some(i)
    case _ => None
  }

  ghost function Goto<K>(s: State<K>, t: nat, pc: Pc<K>): State<K>
    requires t < |s.pcs|
  {
    s.(pcs := s.pcs[t := pc])
  }

  ghost function WithLock<K>(s: State<K>, i: nat, lock: RwLock): State<K>
    requires i < |s.insts|
  {
    s.(insts := s.insts[i := s.insts[i].(lock := lock)])
  }

  ghost function WithHolds<K>(s: State<K>, i: nat, holds: int): State<K>
    requires i < |s.insts|
  {
    s.(insts := s.insts[i := s.insts[i].(holds := holds)])
  }

  /** One atomic step of a thread. An idle one asks for a key; a step that has to wait for a lock changes nothing. */
  ghost function Step<K>(s: State<K>, t: nat, key: K, mode: Mode): (r: State<K>)
    requires t < |s.pcs| && RefsOk(s)
    ensures |r.pcs| == |s.pcs|
  {
    match s.pcs[t]
    case Idle =>
      if CanLock(s.uber, Read) then Goto(s.(uber := Locked(s.uber, t, Read)), t, Reading(key, mode)) else s
    case Reading(k, m) =>
      Goto(s, t, if k in s.table then FoundReading(s.table[k], m) else MissedReading(k, m))
    case FoundReading(i, m) => Goto(s.(uber := Unlocked(s.uber, t, Read)), t, Entering(i, m, false))
    case MissedReading(k, m) => Goto(s.(uber := Unlocked(s.uber, t, Read)), t, Missed(k, m))
    case Missed(k, m) =>
      if CanLock(s.uber, Write) then Goto(s.(uber := Locked(s.uber, t, Write)), t, Writing(k, m)) else s
    case Writing(k, m) =>
      if k in s.table then Goto(s, t, Entering(s.table[k], m, true))
      else Goto(s.(table := s.table[k := |s.insts|], insts := s.insts + [Instance(k, FREE, 0)]), t,
                Entering(|s.insts|, m, true))
    case Entering(i, m, u) => Goto(WithHolds(s, i, s.insts[i].holds + 1), t, Waiting(i, m, u))
    case Waiting(i, m, u) =>
      if CanLock(s.insts[i].lock, m)
      then Goto(WithLock(s, i, Locked(s.insts[i].lock, t, m)), t, if u then Acquired(i, m) else Held(i, m))
      else s
    case Acquired(i, m) => Goto(s.(uber := Unlocked(s.uber, t, Write)), t, Held(i, m))
    case Held(i, m) => Goto(WithLock(s, i, Unlocked(s.insts[i].lock, t, m)), t, Released(i))
    case Released(i) =>
      var left := s.insts[i].holds - 1;
      Goto(WithHolds(s, i, left), t, if left < 0 then Panicked else if left > 0 then Idle else Dropping(i))
    case Dropping(i) =>
      if CanLock(s.uber, Write) then Goto(s.(uber := Locked(s.uber, t, Write)), t, Deleting(i)) else s
    case Deleting(i) => Goto(s.(table := s.table - {s.insts[i].key}), t, Deleted)
    case Deleted => Goto(s.(uber := Unlocked(s.uber, t, Write)), t, Idle)
    case Panicked => s
  }

  // ---------------------------------------------------------------- invariant

  ghost predicate UnderRead<K>(pc: Pc<K>) { pc.Reading? || pc.FoundReading? || pc.MissedReading? }

  ghost predicate UnderWrite<K>(pc: Pc<K>) {
    pc.Writing? || (pc.Entering? && pc.uber) || (pc.Waiting? && pc.uber) || pc.Acquired? || pc.Deleting? || pc.Deleted?
  }

  ghost predicate Has<K>(pc: Pc<K>, i: nat, mode: Mode) {
    (pc.Acquired? || pc.Held?) && pc.inst == i && pc.mode == mode
  }

  /** Between its `Add(1)` and its `Add(-1)` on an instance. */
  ghost predicate Counted<K>(pc: Pc<K>, i: nat) {
    (pc.Waiting? || pc.Acquired? || pc.Held? || pc.Released?) && pc.inst == i
  }

  ghost function IsCounted<K>(i: nat): Pc<K> -> bool { (pc: Pc<K>) => Counted(pc, i) }

  ghost function Holders<K>(pcs: seq<Pc<K>>, i: nat): nat { CountIf(pcs, IsCounted(i)) }

  ghost predicate UberOk<K>(s: State<K>) {
    && (forall t: nat :: t in s.uber.readers <==> t < |s.pcs| && UnderRead(s.pcs[t]))
    && (forall t: nat :: s.uber.writer == Some(t) <==> t < |s.pcs| && UnderWrite(s.pcs[t]))
    && (s.uber.writer.Some? ==> s.uber.readers == {})
  }

  ghost predicate LockOk<K>(pcs: seq<Pc<K>>, l: RwLock, i: nat) {
    && (forall t: nat :: t in l.readers <==> t < |pcs| && Has(pcs[t], i, Read))
    && (forall t: nat :: l.writer == Some(t) <==> t < |pcs| && Has(pcs[t], i, Write))
    && (l.writer.Some? ==> l.readers == {})
  }

  ghost predicate InstsOk<K>(s: State<K>) {
    forall i :: 0 <= i < |s.insts| ==> LockOk(s.pcs, s.insts[i].lock, i) && s.insts[i].holds == Holders(s.pcs, i)
  }

  /** A thread under the write lock is about to count itself for the key, or one is on its way to delete the key. */
  ghost predicate Guards<K>(s: State<K>, t: nat, k: K) {
    && t < |s.pcs|
    && match s.pcs[t]
       case Entering(i, _, u) => u && k in s.table && s.table[k] == i
       case Dropping(i) => i < |s.insts| && s.insts[i].key == k
       case Deleting(i) => i < |s.insts| && s.insts[i].key == k
       case _ => false
  }

  ghost predicate KeyOk<K>(s: State<K>, k: K) {
    k in s.table ==> s.table[k] < |s.insts| && (s.insts[s.table[k]].holds > 0 || exists t :: Guards(s, t, k))
  }

  ghost predicate TableOk<K(!new)>(s: State<K>) { forall k :: KeyOk(s, k) }

  ghost predicate NoPanic<K>(s: State<K>) { forall t :: 0 <= t < |s.pcs| ==> !s.pcs[t].Panicked? }

  ghost predicate Inv<K(!new)>(s: State<K>) { RefsOk(s) && UberOk(s) && InstsOk(s) && TableOk(s) && NoPanic(s) }

  lemma HoldersPositive<K>(pcs: seq<Pc<K>>, i: nat)
    ensures Holders(pcs, i) > 0 <==> exists t :: 0 <= t < |pcs| && Counted(pcs[t], i)
  {
    CountIfPositive(pcs, IsCounted<K>(i));
  }

  lemma KeysStay<K>(s: State<K>, t: nat, key: K, mode: Mode)
    requires t < |s.pcs| && RefsOk(s)
    ensures var s' := Step(s, t, key, mode);
            && |s.insts| <= |s'.insts| && (forall i :: 0 <= i < |s.insts| ==> s'.insts[i].key == s.insts[i].key)
            && s'.pcs == s.pcs[t := s'.pcs[t]]
            && (InstOf(s'.pcs[t]).Some? ==> InstOf(s'.pcs[t]).value < |s'.insts|)
  {
  }

  lemma TableAfter<K>(s: State<K>, t: nat, key: K, mode: Mode, k: K)
    requires t < |s.pcs| && RefsOk(s)
    ensures var s' := Step(s, t, key, mode);
            k in s'.table ==> s'.table[k] < |s'.insts| && s'.insts[s'.table[k]].key == k
  {
  }

  lemma StepKeepsRefs<K>(s: State<K>, t: nat, key: K, mode: Mode)
    requires t < |s.pcs| && RefsOk(s)
    ensures RefsOk(Step(s, t, key, mode))
  {
    KeysStay(s, t, key, mode);
    forall k | k in Step(s, t, key, mode).table {
      TableAfter(s, t, key, mode, k);
    }
  }

  /** A thread that takes no part in the lock before or after leaves it right, and so does one that takes or leaves
      it. */
  lemma UberSame<K>(s: State<K>, s': State<K>, t: nat)
    requires t < |s.pcs| == |s'.pcs| && UberOk(s) && s'.pcs == s.pcs[t := s'.pcs[t]] && s'.uber == s.uber
    requires (UnderRead(s'.pcs[t]) <==> UnderRead(s.pcs[t])) && (UnderWrite(s'.pcs[t]) <==> UnderWrite(s.pcs[t]))
    ensures UberOk(s')
  {
    assert forall u: nat :: u < |s.pcs| && u != t ==> s'.pcs[u] == s.pcs[u];
  }

  ghost predicate Under<K>(pc: Pc<K>, mode: Mode) { if mode == Read then UnderRead(pc) else UnderWrite(pc) }

  lemma UberTaken<K>(s: State<K>, s': State<K>, t: nat, mode: Mode)
    requires t < |s.pcs| == |s'.pcs| && UberOk(s) && s'.pcs == s.pcs[t := s'.pcs[t]]
    requires CanLock(s.uber, mode) && s'.uber == Locked(s.uber, t, mode)
    requires !UnderRead(s.pcs[t]) && !UnderWrite(s.pcs[t]) && Under(s'.pcs[t], mode)
    ensures UberOk(s')
  {
    assert forall u: nat :: u < |s.pcs| && u != t ==> s'.pcs[u] == s.pcs[u];
  }

  lemma UberLeft<K>(s: State<K>, s': State<K>, t: nat, mode: Mode)
    requires t < |s.pcs| == |s'.pcs| && UberOk(s) && s'.pcs == s.pcs[t := s'.pcs[t]]
    requires s'.uber == Unlocked(s.uber, t, mode) && Under(s.pcs[t], mode) && !UnderRead(s'.pcs[t])
    requires !UnderWrite(s'.pcs[t])
    ensures UberOk(s')
  {
    assert forall u: nat :: u < |s.pcs| && u != t ==> s'.pcs[u] == s.pcs[u];
  }

  lemma StepKeepsUber<K>(s: State<K>, t: nat, key: K, mode: Mode)
    requires t < |s.pcs| && RefsOk(s) && UberOk(s)
    ensures UberOk(Step(s, t, key, mode))
  {
    var pc, s' := s.pcs[t], Step(s, t, key, mode);
    if s' != s {
      match pc
      case Idle => UberTaken(s, s', t, Read);
      case FoundReading(_, _) => UberLeft(s, s', t, Read);
      case MissedReading(_, _) => UberLeft(s, s', t, Read);
      case Missed(_, _) => UberTaken(s, s', t, Write);
      case Dropping(_) => UberTaken(s, s', t, Write);
      case Acquired(_, _) => UberLeft(s, s', t, Write);
      case Deleted => UberLeft(s, s', t, Write);
      case _ => UberSame(s, s', t);
    }
  }

  /** A thread that takes no part in a lock before or after leaves it right, and so does one that takes or leaves it. */
  lemma LockSame<K>(pcs: seq<Pc<K>>, l: RwLock, i: nat, t: nat, pc: Pc<K>)
    requires t < |pcs| && LockOk(pcs, l, i)
    requires forall m :: Has(pc, i, m) <==> Has(pcs[t], i, m)
    ensures LockOk(pcs[t := pc], l, i)
  {
    assert forall u: nat, m :: u < |pcs| ==> (Has(pcs[t := pc][u], i, m) <==> Has(pcs[u], i, m));
  }

  lemma LockTaken<K>(pcs: seq<Pc<K>>, l: RwLock, i: nat, t: nat, pc: Pc<K>, mode: Mode)
    requires t < |pcs| && LockOk(pcs, l, i) && CanLock(l, mode) && !Has(pcs[t], i, Read) && !Has(pcs[t], i, Write)
    requires forall m :: Has(pc, i, m) <==> m == mode
    ensures LockOk(pcs[t := pc], Locked(l, t, mode), i)
  {
  }

  lemma LockLeft<K>(pcs: seq<Pc<K>>, l: RwLock, i: nat, t: nat, pc: Pc<K>, mode: Mode)
    requires t < |pcs| && LockOk(pcs, l, i) && Has(pcs[t], i, mode) && !Has(pc, i, Read) && !Has(pc, i, Write)
    ensures LockOk(pcs[t := pc], Unlocked(l, t, mode), i)
  {
  }

  lemma LockStep<K>(s: State<K>, t: nat, key: K, mode: Mode, i: nat)
    requires t < |s.pcs| && RefsOk(s) && i < |s.insts| && LockOk(s.pcs, s.insts[i].lock, i)
    ensures var s' := Step(s, t, key, mode); LockOk(s'.pcs, s'.insts[i].lock, i)
  {
    var pc, s' := s.pcs[t], Step(s, t, key, mode);
    if pc.Waiting? && pc.inst == i && s' != s {
      LockTaken(s.pcs, s.insts[i].lock, i, t, s'.pcs[t], pc.mode);
    } else if pc.Held? && pc.inst == i {
      LockLeft(s.pcs, s.insts[i].lock, i, t, s'.pcs[t], pc.mode);
    } else if s' != s {
      LockSame(s.pcs, s.insts[i].lock, i, t, s'.pcs[t]);
    }
  }

  lemma CountDelta<K>(s: State<K>, t: nat, key: K, mode: Mode, i: nat)
    requires t < |s.pcs| && RefsOk(s) && i < |s.insts|
    ensures var s' := Step(s, t, key, mode);
            && i < |s'.insts| && s'.pcs == s.pcs[t := s'.pcs[t]]
            && s'.insts[i].holds - s.insts[i].holds == One(Counted(s'.pcs[t], i)) - One(Counted(s.pcs[t], i))
  {
    var s' := Step(s, t, key, mode);
    assert s.pcs[t].Released? ==> !Counted(s'.pcs[t], i);
  }

  lemma CountStep<K>(s: State<K>, t: nat, key: K, mode: Mode, i: nat)
    requires t < |s.pcs| && RefsOk(s) && i < |s.insts| && s.insts[i].holds == Holders(s.pcs, i)
    ensures var s' := Step(s, t, key, mode); i < |s'.insts| && s'.insts[i].holds == Holders(s'.pcs, i)
  {
    CountDelta(s, t, key, mode, i);
    CountIfUpdate(s.pcs, t, Step(s, t, key, mode).pcs[t], IsCounted<K>(i));
  }

  /** A new instance has no holders. */
  lemma NewInstance<K>(s: State<K>, t: nat, k: K, mode: Mode)
    requires t < |s.pcs| && RefsOk(s) && s.pcs[t] == Writing(k, mode) && k !in s.table
    ensures var pcs := s.pcs[t := Entering(|s.insts|, mode, true)];
            LockOk(pcs, FREE, |s.insts|) && Holders(pcs, |s.insts|) == 0
  {
    var pcs := s.pcs[t := Entering(|s.insts|, mode, true)];
    HoldersPositive(pcs, |s.insts|);
    assert forall u :: 0 <= u < |pcs| ==> !Counted(pcs[u], |s.insts|);
  }

  lemma StepKeepsInsts<K>(s: State<K>, t: nat, key: K, mode: Mode)
    requires t < |s.pcs| && RefsOk(s) && InstsOk(s)
    ensures InstsOk(Step(s, t, key, mode))
  {
    var s' := Step(s, t, key, mode);
    forall i | 0 <= i < |s'.insts|
      ensures LockOk(s'.pcs, s'.insts[i].lock, i) && s'.insts[i].holds == Holders(s'.pcs, i)
    {
      if i < |s.insts| {
        LockStep(s, t, key, mode, i);
        CountStep(s, t, key, mode, i);
      } else {
        NewInstance(s, t, s.pcs[t].key, s.pcs[t].mode);
      }
    }
  }

  /** The count of a thread that is between its two additions is positive, so that the panic is never reached. */
  lemma StepKeepsNoPanic<K>(s: State<K>, t: nat, key: K, mode: Mode)
    requires t < |s.pcs| && RefsOk(s) && InstsOk(s) && NoPanic(s)
    ensures NoPanic(Step(s, t, key, mode))
  {
    if s.pcs[t].Released? {
      HoldersPositive(s.pcs, s.pcs[t].inst);
    }
  }

  /** The table changes only under the write lock. */
  lemma GuardKept<K>(s: State<K>, t: nat, key: K, mode: Mode, u: nat, k: K)
    requires t < |s.pcs| && RefsOk(s) && UberOk(s) && Guards(s, u, k) && u != t
    ensures Guards(Step(s, t, key, mode), u, k)
  {
    assert UnderWrite(s.pcs[u]) && UnderWrite(s.pcs[t]) ==> s.uber.writer == Some(u) && s.uber.writer == Some(t);
  }

  lemma OwnGuard<K>(s: State<K>, t: nat, key: K, mode: Mode, k: K)
    requires t < |s.pcs| && RefsOk(s) && InstsOk(s) && Guards(s, t, k)
    ensures var s' := Step(s, t, key, mode);
            k in s'.table ==> s'.table[k] < |s'.insts| && (s'.insts[s'.table[k]].holds > 0 || Guards(s', t, k))
  {
  }

  lemma OwnCount<K>(s: State<K>, t: nat, key: K, mode: Mode, k: K)
    requires t < |s.pcs| && RefsOk(s)
    requires k in s.table ==> s.insts[s.table[k]].holds > 0
    ensures var s' := Step(s, t, key, mode);
            k in s'.table ==> s'.table[k] < |s'.insts| && (s'.insts[s'.table[k]].holds > 0 || Guards(s', t, k))
  {
    match s.pcs[t]
    case Released(i) =>
    case Entering(i, _, _) =>
    case Writing(_, _) =>
    case Deleting(_) =>
    case _ =>
  }

  lemma StepKeepsTable<K(!new)>(s: State<K>, t: nat, key: K, mode: Mode)
    requires t < |s.pcs| && RefsOk(s) && UberOk(s) && InstsOk(s) && TableOk(s)
    ensures TableOk(Step(s, t, key, mode))
  {
    forall k ensures KeyOk(Step(s, t, key, mode), k) {
      assert KeyOk(s, k);
      if u :| Guards(s, u, k) {
        if u == t {
          OwnGuard(s, t, key, mode, k);
        } else {
          GuardKept(s, t, key, mode, u, k);
        }
      } else {
        OwnCount(s, t, key, mode, k);
      }
    }
  }

  // ---------------------------------------------------------------- every run

  /** What an idle thread asks for. */
  datatype Ask<K> = Ask(key: K, mode: Mode)

  ghost function Next<K>(): (State<K>, Choice<Ask<K>>) -> State<K> {
    (s: State<K>, c: Choice<Ask<K>>) => if c.t < |s.pcs| && RefsOk(s) then Step(s, c.t, c.op.key, c.op.mode) else s
  }

  ghost function IsInv<K(!new)>(threads: nat): State<K> -> bool { (s: State<K>) => Inv(s) && |s.pcs| == threads }

  lemma InitOk<K(!new)>(threads: nat)
    ensures Inv(Init<K>(threads))
  {
  }

  lemma StepKeepsInv<K(!new)>(s: State<K>, t: nat, key: K, mode: Mode)
    requires t < |s.pcs| && Inv(s)
    ensures Inv(Step(s, t, key, mode))
  {
    StepKeepsRefs(s, t, key, mode);
    StepKeepsUber(s, t, key, mode);
    StepKeepsInsts(s, t, key, mode);
    StepKeepsTable(s, t, key, mode);
    StepKeepsNoPanic(s, t, key, mode);
  }

  lemma InvIsKept<K(!new)>(threads: nat)
    ensures Keeps(Next<K>(), IsInv<K>(threads))
  {
    forall s: State<K>, c: Choice<Ask<K>> | Inv(s) && |s.pcs| == threads && c.t < threads
      ensures Inv(Step(s, c.t, c.op.key, c.op.mode))
    {
      StepKeepsInv(s, c.t, c.op.key, c.op.mode);
    }
  }

  /** MAIN: in every interleaving, the count of an instance is the number of threads between their two additions, the
      panic is not reached, and every mapped key has a positive count or a thread that guards it. */
  lemma RunKeepsInv<K(!new)>(threads: nat, choices: seq<Choice<Ask<K>>>)
    ensures var s := Run(Next(), Init(threads), choices); Inv(s) && |s.pcs| == threads
  {
    InitOk<K>(threads);
    InvIsKept<K>(threads);
    Always(Next<K>(), Init(threads), choices, IsInv(threads));
  }

  /** MAIN: once all threads are idle, no key is mapped and nothing is counted or locked. */
  lemma AllReleased<K(!new)>(threads: nat, choices: seq<Choice<Ask<K>>>)
    requires forall pc :: pc in Run(Next(), Init(threads), choices).pcs ==> pc.Idle?
    ensures var s := Run(Next(), Init(threads), choices);
            && s.table == map[] && s.uber == FREE
            && forall i :: 0 <= i < |s.insts| ==> s.insts[i].holds == 0 && s.insts[i].lock == FREE
  {
    var s := Run(Next(), Init(threads), choices);
    RunKeepsInv(threads, choices);
    assert forall t :: 0 <= t < |s.pcs| ==> s.pcs[t] in s.pcs && s.pcs[t].Idle?;
    var w := if s.uber.writer.Some? then s.uber.writer.value else 0;
    assert s.uber.writer == Some(w) <==> w < |s.pcs| && UnderWrite(s.pcs[w]);
    assert s.uber.readers == {};
    forall i | 0 <= i < |s.insts| ensures s.insts[i].holds == 0 && s.insts[i].lock == FREE {
      HoldersPositive(s.pcs, i);
      var l := s.insts[i].lock;
      assert LockOk(s.pcs, l, i);
      var v := if l.writer.Some? then l.writer.value else 0;
      assert l.writer == Some(v) <==> v < |s.pcs| && Has(s.pcs[v], i, Write);
      assert l.readers == {};
    }
    forall k ensures k !in s.table {
      assert KeyOk(s, k);
    }
  }

  /** A writer of an instance is alone with it. */
  lemma WriterIsAlone<K(!new)>(s: State<K>, t: nat, u: nat, i: nat, mode: Mode)
    requires Inv(s) && t < |s.pcs| && u < |s.pcs| && i < |s.insts| && Has(s.pcs[t], i, Write) && Has(s.pcs[u], i, mode)
    ensures t == u
  {
    assert LockOk(s.pcs, s.insts[i].lock, i);
    assert u in s.insts[i].lock.readers <==> Has(s.pcs[u], i, Read);
  }

  /** MAIN: and so it is in every interleaving. */
  lemma InstanceExclusion<K(!new)>(threads: nat, choices: seq<Choice<Ask<K>>>, t: nat, u: nat, i: nat, mode: Mode)
    requires t < threads && u < threads
    requires var s := Run(Next(), Init(threads), choices);
             |s.pcs| == threads && i < |s.insts| && Has(s.pcs[t], i, Write) && Has(s.pcs[u], i, mode)
    ensures t == u
  {
    RunKeepsInv(threads, choices);
    WriterIsAlone(Run(Next(), Init(threads), choices), t, u, i, mode);
  }

  // --------------------------------------------------------- exclusion by key

  /** A thread counts itself on an instance that has been taken out of the table in the meantime, or deletes a key
      that others have come to use since it left. */
  ghost predicate Stale<K>(s: State<K>, t: nat)
    requires t < |s.pcs| && RefsOk(s)
  {
    match s.pcs[t]
    case Entering(i, _, u) => !u && !(s.insts[i].key in s.table && s.table[s.insts[i].key] == i)
    case Deleting(i) => s.insts[i].key in s.table && s.insts[s.table[s.insts[i].key]].holds > 0
    case _ => false
  }

  ghost function IsStale<K>(): (State<K>, Choice<Ask<K>>) -> bool {
    (s: State<K>, c: Choice<Ask<K>>) => c.t < |s.pcs| && RefsOk(s) && Stale(s, c.t)
  }

  ghost predicate Mapped<K>(s: State<K>, i: nat)
    requires RefsOk(s)
  {
    i < |s.insts| && s.insts[i].key in s.table && s.table[s.insts[i].key] == i
  }

  /** Threads that count, or are about to under the write lock, do so on mapped instances. */
  ghost predicate Current<K>(s: State<K>, t: nat)
    requires t < |s.pcs| && RefsOk(s)
  {
    match s.pcs[t]
    case Entering(i, _, u) => u ==> Mapped(s, i)
    case Waiting(i, _, _) => Mapped(s, i)
    case Acquired(i, _) => Mapped(s, i)
    case Held(i, _) => Mapped(s, i)
    case Released(i) => Mapped(s, i)
    case _ => true
  }

  lemma OwnCurrent<K(!new)>(s: State<K>, t: nat, key: K, mode: Mode)
    requires t < |s.pcs| && Inv(s) && Current(s, t) && !Stale(s, t)
    ensures RefsOk(Step(s, t, key, mode)) && Current(Step(s, t, key, mode), t)
  {
    StepKeepsRefs(s, t, key, mode);
  }

  lemma MappedKept<K>(s: State<K>, t: nat, key: K, mode: Mode, i: nat)
    requires t < |s.pcs| && RefsOk(s) && Mapped(s, i)
    requires s.pcs[t].Deleting? ==> s.insts[s.pcs[t].inst].key != s.insts[i].key
    ensures RefsOk(Step(s, t, key, mode)) && Mapped(Step(s, t, key, mode), i)
  {
    StepKeepsRefs(s, t, key, mode);
  }

  lemma OtherCurrent<K(!new)>(s: State<K>, t: nat, key: K, mode: Mode, u: nat)
    requires t < |s.pcs| && u < |s.pcs| && u != t && Inv(s) && Current(s, u) && !Stale(s, t)
    ensures RefsOk(Step(s, t, key, mode)) && Current(Step(s, t, key, mode), u)
  {
    StepKeepsRefs(s, t, key, mode);
    var pc := s.pcs[u];
    assert Step(s, t, key, mode).pcs[u] == pc;
    if Counted(pc, if InstOf(pc).Some? then InstOf(pc).value else 0) {
      HoldersPositive(s.pcs, InstOf(pc).value);
      MappedKept(s, t, key, mode, InstOf(pc).value);
    } else if pc.Entering? && pc.uber {
      assert UnderWrite(s.pcs[t]) ==> s.uber.writer == Some(u) && s.uber.writer == Some(t);
      MappedKept(s, t, key, mode, pc.inst);
    }
  }

  ghost predicate AllCurrent<K>(s: State<K>)
    requires RefsOk(s)
  {
    forall t :: 0 <= t < |s.pcs| ==> Current(s, t)
  }

  lemma StepKeepsCurrent<K(!new)>(s: State<K>, t: nat, key: K, mode: Mode)
    requires t < |s.pcs| && Inv(s) && AllCurrent(s) && !Stale(s, t)
    ensures RefsOk(Step(s, t, key, mode)) && AllCurrent(Step(s, t, key, mode))
  {
    StepKeepsRefs(s, t, key, mode);
    var s' := Step(s, t, key, mode);
    forall u | 0 <= u < |s'.pcs| ensures Current(s', u) {
      if u == t {
        OwnCurrent(s, t, key, mode);
      } else {
        OtherCurrent(s, t, key, mode, u);
      }
    }
  }

  ghost function IsCurrent<K(!new)>(threads: nat): State<K> -> bool {
    (s: State<K>) => Inv(s) && |s.pcs| == threads && AllCurrent(s)
  }

  lemma CleanIsCurrent<K(!new)>(threads: nat, choices: seq<Choice<Ask<K>>>)
    requires Avoids(Next(), Init(threads), choices, IsStale<K>())
    ensures var s := Run(Next(), Init(threads), choices); Inv(s) && |s.pcs| == threads && AllCurrent(s)
  {
    InitOk<K>(threads);
    forall s: State<K>, c: Choice<Ask<K>> | IsCurrent<K>(threads)(s) && !IsStale<K>()(s, c)
      ensures IsCurrent<K>(threads)(Next<K>()(s, c))
    {
      if c.t < threads {
        StepKeepsInv(s, c.t, c.op.key, c.op.mode);
        StepKeepsCurrent(s, c.t, c.op.key, c.op.mode);
      }
    }
    AlwaysAvoiding(Next<K>(), Init(threads), choices, IsStale<K>(), IsCurrent<K>(threads));
  }

  /** MAIN: in a run without a stale step, a writer of a key is alone with the key. */
  lemma KeyExclusion<K(!new)>(threads: nat, choices: seq<Choice<Ask<K>>>, t: nat, u: nat, i: nat, j: nat, mode: Mode)
    requires Avoids(Next(), Init(threads), choices, IsStale<K>()) && t < threads && u < threads
    requires var s := Run(Next(), Init(threads), choices);
             && |s.pcs| == threads && i < |s.insts| && j < |s.insts| && s.insts[i].key == s.insts[j].key
             && Has(s.pcs[t], i, Write) && Has(s.pcs[u], j, mode)
    ensures t == u
  {
    var s := Run(Next(), Init(threads), choices);
    CleanIsCurrent(threads, choices);
    assert Current(s, t) && Current(s, u);
    WriterIsAlone(s, t, u, i, mode);
  }

  // ------------------------------------- two writers of one key, in two ways

  lemma Go<K(!new)>(p: State<K> -> bool, s: State<K>, t: nat, k: K, next: State<K>)
    requires Keeps(Next(), p) && p(s) && RefsOk(s) && t < |s.pcs| && Step(s, t, k, Write) == next
    ensures p(next) && RefsOk(next)
  {
    StepKeepsRefs(s, t, k, Write);
    assert Next<K>()(s, Choice(t, Ask(k, Write))) == next;
  }

  lemma Find<K(!new)>(p: State<K> -> bool, s: State<K>, t: nat, k: K) returns (next: State<K>)
    requires Keeps(Next(), p) && p(s) && RefsOk(s) && t < |s.pcs| && s.pcs[t] == Idle && s.uber == FREE && k in s.table
    ensures p(next) && RefsOk(next) && next == Goto(s, t, Entering(s.table[k], Write, false))
  {
    var reading := s.(uber := RwLock(None, {t}));
    var s1 := Goto(reading, t, Reading(k, Write));
    var s2 := Goto(reading, t, FoundReading(s.table[k], Write));
    var s3 := Goto(s, t, Entering(s.table[k], Write, false));
    Go(p, s, t, k, s1);
    UpdateTwice(s.pcs, t, s1.pcs[t], s2.pcs[t]);
    Go(p, s1, t, k, s2);
    UpdateTwice(s.pcs, t, s2.pcs[t], s3.pcs[t]);
    Go(p, s2, t, k, s3);
    next := s3;
  }

  lemma Miss<K(!new)>(p: State<K> -> bool, s: State<K>, t: nat, k: K) returns (next: State<K>)
    requires Keeps(Next(), p) && p(s) && RefsOk(s) && t < |s.pcs| && s.pcs[t] == Idle && s.uber == FREE && k !in s.table
    ensures p(next) && RefsOk(next) && next == Goto(s.(uber := RwLock(Some(t), {})), t, Writing(k, Write))
  {
    var reading := s.(uber := RwLock(None, {t}));
    var s1 := Goto(reading, t, Reading(k, Write));
    var s2 := Goto(reading, t, MissedReading(k, Write));
    var s3 := Goto(s, t, Missed(k, Write));
    var s4 := Goto(s.(uber := RwLock(Some(t), {})), t, Writing(k, Write));
    Go(p, s, t, k, s1);
    UpdateTwice(s.pcs, t, s1.pcs[t], s2.pcs[t]);
    Go(p, s1, t, k, s2);
    UpdateTwice(s.pcs, t, s2.pcs[t], s3.pcs[t]);
    Go(p, s2, t, k, s3);
    UpdateTwice(s.pcs, t, s3.pcs[t], s4.pcs[t]);
    Go(p, s3, t, k, s4);
    next := s4;
  }

  lemma Make<K(!new)>(p: State<K> -> bool, s: State<K>, t: nat, k: K) returns (next: State<K>)
    requires Keeps(Next(), p) && p(s) && RefsOk(s) && t < |s.pcs| && s.pcs[t] == Writing(k, Write)
    requires s.uber == RwLock(Some(t), {}) && k !in s.table
    ensures p(next) && RefsOk(next)
    ensures next
            == Goto(State(FREE, s.table[k := |s.insts|], s.insts + [Instance(k, s.uber, 1)], s.pcs), t,
                    Held(|s.insts|, Write))
  {
    var i, table := |s.insts|, s.table[k := |s.insts|];
    var s1 := Goto(s.(table := table, insts := s.insts + [Instance(k, FREE, 0)]), t, Entering(i, Write, true));
    var s2 := Goto(s.(table := table, insts := s.insts + [Instance(k, FREE, 1)]), t, Waiting(i, Write, true));
    var s3 := Goto(s.(table := table, insts := s.insts + [Instance(k, s.uber, 1)]), t, Acquired(i, Write));
    var s4 := Goto(s.(uber := FREE, table := table, insts := s.insts + [Instance(k, s.uber, 1)]), t, Held(i, Write));
    Go(p, s, t, k, s1);
    UpdateTwice(s.pcs, t, s1.pcs[t], s2.pcs[t]);
    Go(p, s1, t, k, s2);
    UpdateTwice(s.pcs, t, s2.pcs[t], s3.pcs[t]);
    Go(p, s2, t, k, s3);
    UpdateTwice(s.pcs, t, s3.pcs[t], s4.pcs[t]);
    Go(p, s3, t, k, s4);
    next := s4;
  }

  lemma Create<K(!new)>(p: State<K> -> bool, s: State<K>, t: nat, k: K) returns (next: State<K>)
    requires Keeps(Next(), p) && p(s) && RefsOk(s) && t < |s.pcs| && s.pcs[t] == Idle && s.uber == FREE && k !in s.table
    ensures p(next) && RefsOk(next)
    ensures next
            == Goto(State(FREE, s.table[k := |s.insts|], s.insts + [Instance(k, RwLock(Some(t), {}), 1)], s.pcs), t,
                    Held(|s.insts|, Write))
  {
    next := Miss(p, s, t, k);
    next := Make(p, next, t, k);
    UpdateTwice(s.pcs, t, Writing(k, Write), Held(|s.insts|, Write));
  }

  lemma Enter<K(!new)>(p: State<K> -> bool, s: State<K>, t: nat, k: K, i: nat) returns (next: State<K>)
    requires Keeps(Next(), p) && p(s) && RefsOk(s) && t < |s.pcs| && s.pcs[t] == Entering(i, Write, false)
    requires s.insts[i] == Instance(k, FREE, 0)
    ensures p(next) && RefsOk(next)
    ensures next == Goto(s.(insts := s.insts[i := Instance(k, RwLock(Some(t), {}), 1)]), t, Held(i, Write))
  {
    var s1 := Goto(s.(insts := s.insts[i := Instance(k, FREE, 1)]), t, Waiting(i, Write, false));
    var s2 := Goto(s.(insts := s.insts[i := Instance(k, RwLock(Some(t), {}), 1)]), t, Held(i, Write));
    Go(p, s, t, k, s1);
    UpdateTwice(s.pcs, t, s1.pcs[t], s2.pcs[t]);
    Go(p, s1, t, k, s2);
    next := s2;
  }

  lemma Drop<K(!new)>(p: State<K> -> bool, s: State<K>, t: nat, k: K, i: nat) returns (next: State<K>)
    requires Keeps(Next(), p) && p(s) && RefsOk(s) && t < |s.pcs| && s.pcs[t] == Held(i, Write)
    requires s.insts[i] == Instance(k, RwLock(Some(t), {}), 1)
    ensures p(next) && RefsOk(next) && next == Goto(s.(insts := s.insts[i := Instance(k, FREE, 0)]), t, Dropping(i))
  {
    var s1 := Goto(s.(insts := s.insts[i := Instance(k, FREE, 1)]), t, Released(i));
    var s2 := Goto(s.(insts := s.insts[i := Instance(k, FREE, 0)]), t, Dropping(i));
    Go(p, s, t, k, s1);
    UpdateTwice(s.pcs, t, s1.pcs[t], s2.pcs[t]);
    Go(p, s1, t, k, s2);
    next := s2;
  }

  lemma Delete<K(!new)>(p: State<K> -> bool, s: State<K>, t: nat, k: K, i: nat) returns (next: State<K>)
    requires Keeps(Next(), p) && p(s) && RefsOk(s) && t < |s.pcs| && s.pcs[t] == Dropping(i) && s.uber == FREE
    requires s.insts[i].key == k
    ensures p(next) && RefsOk(next) && next == Goto(s.(table := s.table - {k}), t, Idle)
  {
    var writing := s.(uber := RwLock(Some(t), {}));
    var s1 := Goto(writing, t, Deleting(i));
    var s2 := Goto(writing.(table := s.table - {k}), t, Deleted);
    var s3 := Goto(s.(table := s.table - {k}), t, Idle);
    Go(p, s, t, k, s1);
    UpdateTwice(s.pcs, t, s1.pcs[t], s2.pcs[t]);
    Go(p, s1, t, k, s2);
    UpdateTwice(s.pcs, t, s2.pcs[t], s3.pcs[t]);
    Go(p, s2, t, k, s3);
    next := s3;
  }

  ghost predicate TwoWriters<K>(s: State<K>, k: K) {
    exists t, u, i, j :: 0 <= t < u < |s.pcs| && 0 <= i < |s.insts| && 0 <= j < |s.insts|
      && s.pcs[t] == Held(i, Write) && s.pcs[u] == Held(j, Write) && s.insts[i].key == k && s.insts[j].key == k
  }

  /** One thread has given the key back and is going to delete it, another one has found its instance before. */
  lemma FoundInTime<K(!new)>(p: State<K> -> bool, threads: nat, k: K) returns (s: State<K>)
    requires Keeps(Next(), p) && p(Init(threads)) && threads >= 2
    ensures p(s) && RefsOk(s)
    ensures s
            == State(FREE, map[k := 0], [Instance(k, FREE, 0)],
                     TwoOf(threads, Dropping(0), Entering(0, Write, false), Idle))
  {
    s := Create(p, Init(threads), 0, k);
    assert s
           == State(FREE, map[k := 0], [Instance(k, RwLock(Some(0), {}), 1)],
                    TwoOf(threads, Held(0, Write), Idle, Idle));
    s := Find(p, s, 1, k);
    s := Drop(p, s, 0, k, 0);
    assert s.pcs == TwoOf(threads, Dropping(0), Entering(0, Write, false), Idle);
  }

  /** The first way: the other thread counts itself on the instance after it was deleted. */
  lemma StaleEntry<K(!new)>(p: State<K> -> bool, threads: nat, k: K) returns (s: State<K>)
    requires Keeps(Next(), p) && p(Init(threads)) && threads >= 2
    ensures p(s) && TwoWriters(s, k)
  {
    s := FoundInTime(p, threads, k);
    s := Delete(p, s, 0, k, 0);
    s := Enter(p, s, 1, k, 0);
    assert s == State(FREE, map[], [Instance(k, RwLock(Some(1), {}), 1)], TwoOf(threads, Idle, Held(0, Write), Idle));
    s := Create(p, s, 0, k);
    assert s.pcs[0] == Held(1, Write) && s.pcs[1] == Held(0, Write);
  }

  /** The second way: the key is deleted after the other thread has come to use it. */
  lemma StaleDelete<K(!new)>(p: State<K> -> bool, threads: nat, k: K) returns (s: State<K>)
    requires Keeps(Next(), p) && p(Init(threads)) && threads >= 2
    ensures p(s) && TwoWriters(s, k)
  {
    s := FoundInTime(p, threads, k);
    s := Enter(p, s, 1, k, 0);
    s := Delete(p, s, 0, k, 0);
    assert s == State(FREE, map[], [Instance(k, RwLock(Some(1), {}), 1)], TwoOf(threads, Idle, Held(0, Write), Idle));
    s := Create(p, s, 0, k);
    assert s.pcs[0] == Held(1, Write) && s.pcs[1] == Held(0, Write);
  }

  ghost predicate CanHaveTwoWriters<K(!new)>(threads: nat, k: K) {
    exists s: State<K> :: Reachable(Next(), Init(threads), s) && TwoWriters(s, k)
  }

  /** MAIN: two threads can be writers of one key at a time, whatever the key, exactly if there are two. */
  lemma TwoWritersIffTwoThreads<K(!new)>(threads: nat, k: K)
    ensures CanHaveTwoWriters(threads, k) <==> threads >= 2
  {
    if threads >= 2 {
      ReachableIsKept(Next<K>(), Init(threads));
      var s := StaleEntry(IsReachable(Next<K>(), Init(threads)), threads, k);
      assert Reachable(Next(), Init(threads), s);
    } else {
      forall s: State<K> | Reachable(Next(), Init(threads), s) ensures |s.pcs| == threads {
        var choices :| Run(Next(), Init(threads), choices) == s;
        RunKeepsInv(threads, choices);
      }
    }
  }
}
