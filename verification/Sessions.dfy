/** The store of sessions: searching it, when sessions expire, and what housekeeping makes of them. */
module Sessions {
  import opened Bytes

  datatype SessionState = New | Authorized | Disposed

  /** A session as its files have it: its state, when it was last accessed, and its public keys. */
  datatype Record = Record(state: SessionState, lastAccessed: int, keys: set<Bytes>, remoteUser: Bytes)

  datatype SessionId = SessionId(flow: Bytes, id: Bytes)

  datatype Session = Session(of: SessionId, record: Record)

  /** A flow and the directories in it, in the order in which they are listed. */
  datatype FlowDir = FlowDir(flow: Bytes, ids: seq<Bytes>)

  /** A directory that is listed but not a key here has no session file. */
  datatype Store = Store(listing: seq<FlowDir>, sessions: map<SessionId, Record>)

  type Predicate = Session -> bool

  // ------------------------------------------------------------------- search

  predicate MatchesAll(predicates: seq<Predicate>, s: Session) {
    forall i :: 0 <= i < |predicates| ==> predicates[i](s)
  }

  /** `Predicates.Matches`. */
  method Matches(predicates: seq<Predicate>, s: Session) returns (ok: bool)
    ensures ok == MatchesAll(predicates, s)
  {
    for i := 0 to |predicates|
      invariant forall j :: 0 <= j < i ==> predicates[j](s)
    {
      if !predicates[i](s) { return false; }
    }
    return true;
  }

  /** The sessions of one flow that match, and those of all flows, in directory order. */
  function MatchingOf(store: Store, flow: Bytes, ids: seq<Bytes>, p: Predicate): seq<Session> {
    if ids == [] then []
    else
      var front, of := MatchingOf(store, flow, ids[..|ids| - 1], p), SessionId(flow, ids[|ids| - 1]);
      if of in store.sessions && p(Session(of, store.sessions[of])) then front + [Session(of, store.sessions[of])]
      else front
  }

  function Matching(store: Store, listing: seq<FlowDir>, p: Predicate): seq<Session> {
    if listing == [] then []
    else
      var last := listing[|listing| - 1];
      Matching(store, listing[..|listing| - 1], p) + MatchingOf(store, last.flow, last.ids, p)
  }

  ghost predicate Listed(listing: seq<FlowDir>, of: SessionId) {
    exists i :: 0 <= i < |listing| && listing[i].flow == of.flow && of.id in listing[i].ids
  }

  lemma {:induction false} MatchingOfIs(store: Store, flow: Bytes, ids: seq<Bytes>, p: Predicate, s: Session)
    ensures s in MatchingOf(store, flow, ids, p) <==>
            s.of.flow == flow && s.of.id in ids && s.of in store.sessions && store.sessions[s.of] == s.record && p(s)
  {
    if ids != [] {
      var n := |ids| - 1;
      MatchingOfIs(store, flow, ids[..n], p, s);
      assert ids == ids[..n] + [ids[n]];
      assert s.of == SessionId(flow, ids[n]) <==> s.of.flow == flow && s.of.id == ids[n];
    }
  }

  lemma ListedMore(listing: seq<FlowDir>, of: SessionId)
    requires listing != []
    ensures var n := |listing| - 1;
            Listed(listing, of) <==> Listed(listing[..n], of) || (listing[n].flow == of.flow && of.id in listing[n].ids)
  {
    var n := |listing| - 1;
    assert forall i :: 0 <= i < n ==> listing[..n][i] == listing[i];
    assert Listed(listing, of) <==> exists i :: 0 <= i <= n && listing[i].flow == of.flow && of.id in listing[i].ids;
    assert Listed(listing[..n], of)
           <==> exists i :: 0 <= i < n && listing[i].flow == of.flow && of.id in listing[i].ids;
  }

  /** MAIN: the matching sessions are those that are listed, have a session file and match. */
  lemma {:induction false} MatchingIs(store: Store, listing: seq<FlowDir>, p: Predicate, s: Session)
    ensures s in Matching(store, listing, p) <==>
            Listed(listing, s.of) && s.of in store.sessions && store.sessions[s.of] == s.record && p(s)
  {
    if listing != [] {
      var n := |listing| - 1;
      MatchingIs(store, listing[..n], p, s);
      MatchingOfIs(store, listing[n].flow, listing[n].ids, p, s);
      ListedMore(listing, s.of);
    }
  }

  /** `FindByPublicKey`: the first matching session that holds the key, or none if there is none. */
  method FindByPublicKey(store: Store, key: Bytes, predicates: seq<Predicate>) returns (result: Option<Session>)
    ensures var found := Matching(store, store.listing, (s: Session) => key in s.record.keys
                                  && MatchesAll(predicates, s));
            result == if found == [] then None else Some(found[0])
  {
    ghost var p := (s: Session) => key in s.record.keys && MatchesAll(predicates, s);
    result := None;
    var listing := store.listing;
    for i := 0 to |listing|
      invariant result == None && Matching(store, listing[..i], p) == []
    {
      var ids := listing[i].ids;
      assert listing[..i + 1][..i] == listing[..i];
      for j := 0 to |ids|
        invariant result == None && MatchingOf(store, listing[i].flow, ids[..j], p) == []
      {
        assert ids[..j + 1][..j] == ids[..j];
        var of := SessionId(listing[i].flow, ids[j]);
        if of in store.sessions && key in store.sessions[of].keys {
          var candidate := Session(of, store.sessions[of]);
          var ok := Matches(predicates, candidate);
          if ok {
            FirstStays(store, listing, i, j, p);
            return Some(candidate);
          }
        }
      }
      assert ids[..|ids|] == ids;
    }
    assert listing[..|listing|] == listing;
  }

  lemma {:induction false} FlowPrefix(store: Store, flow: Bytes, ids: seq<Bytes>, j: nat, p: Predicate)
    requires j <= |ids|
    ensures MatchingOf(store, flow, ids[..j], p) <= MatchingOf(store, flow, ids, p)
    decreases |ids|
  {
    if j < |ids| {
      FlowPrefix(store, flow, ids[..|ids| - 1], j, p);
      assert ids[..|ids| - 1][..j] == ids[..j];
    } else {
      assert ids[..j] == ids;
    }
  }

  lemma {:induction false} ListingPrefix(store: Store, listing: seq<FlowDir>, i: nat, p: Predicate)
    requires i <= |listing|
    ensures Matching(store, listing[..i], p) <= Matching(store, listing, p)
    decreases |listing|
  {
    if i < |listing| {
      ListingPrefix(store, listing[..|listing| - 1], i, p);
      assert listing[..|listing| - 1][..i] == listing[..i];
    } else {
      assert listing[..i] == listing;
    }
  }

  /** What is found first stays the first of all. */
  lemma FirstStays(store: Store, listing: seq<FlowDir>, i: nat, j: nat, p: Predicate)
    requires i < |listing| && j < |listing[i].ids| && Matching(store, listing[..i], p) == []
    requires MatchingOf(store, listing[i].flow, listing[i].ids[..j], p) == []
    requires var of := SessionId(listing[i].flow, listing[i].ids[j]);
             of in store.sessions && p(Session(of, store.sessions[of]))
    ensures var of := SessionId(listing[i].flow, listing[i].ids[j]);
            [Session(of, store.sessions[of])] <= Matching(store, listing, p)
  {
    var ids := listing[i].ids;
    assert ids[..j + 1][..j] == ids[..j];
    FlowPrefix(store, listing[i].flow, ids, j + 1, p);
    assert listing[..i + 1][..i] == listing[..i];
    ListingPrefix(store, listing, i + 1, p);
  }

  // ------------------------------------------------------------ visiting all

  /** What a consumer makes of its own state and a session, and whether it wants more. */
  type Consumer<!S> = (S, Session) -> (S, bool)

  datatype Visit<S> = Visit(state: S, visited: seq<Session>, goesOn: bool)

  function VisitAll<S>(consumer: Consumer<S>, state: S, sessions: seq<Session>): Visit<S> {
    if sessions == [] then Visit(state, [], true)
    else
      var before, s := VisitAll(consumer, state, sessions[..|sessions| - 1]), sessions[|sessions| - 1];
      if !before.goesOn then before
      else var (next, goesOn) := consumer(before.state, s); Visit(next, before.visited + [s], goesOn)
  }

  /** The matching sessions of some flows and of some directories of the next one. */
  ghost function Sofar(store: Store, listing: seq<FlowDir>, i: nat, j: nat, p: Predicate): seq<Session>
    requires i < |listing| && j <= |listing[i].ids|
  {
    Matching(store, listing[..i], p) + MatchingOf(store, listing[i].flow, listing[i].ids[..j], p)
  }

  lemma SofarStarts(store: Store, listing: seq<FlowDir>, i: nat, p: Predicate)
    requires i < |listing|
    ensures Sofar(store, listing, i, 0, p) == Matching(store, listing[..i], p)
    ensures Sofar(store, listing, i, |listing[i].ids|, p) == Matching(store, listing[..i + 1], p)
  {
    assert listing[..i + 1][..i] == listing[..i];
    assert listing[i].ids[..|listing[i].ids|] == listing[i].ids;
  }

  lemma SofarStep(store: Store, listing: seq<FlowDir>, i: nat, j: nat, p: Predicate)
    requires i < |listing| && j < |listing[i].ids|
    ensures var of := SessionId(listing[i].flow, listing[i].ids[j]);
            Sofar(store, listing, i, j + 1, p) == Sofar(store, listing, i, j, p)
              + if of in store.sessions && p(Session(of, store.sessions[of])) then [Session(of, store.sessions[of])]
                else []
  {
    assert listing[i].ids[..j + 1][..j] == listing[i].ids[..j];
  }

  lemma VisitOne<S>(consumer: Consumer<S>, state: S, sessions: seq<Session>, s: Session)
    requires VisitAll(consumer, state, sessions).goesOn
    ensures var before := VisitAll(consumer, state, sessions);
            var (next, goesOn) := consumer(before.state, s);
            VisitAll(consumer, state, sessions + [s]) == Visit(next, before.visited + [s], goesOn)
  {
    assert (sessions + [s])[..|sessions|] == sessions;
  }

  /** `FindAll`: the consumer sees the matching sessions in order, until it wants no more. */
  method FindAll<S>(store: Store, predicates: seq<Predicate>, consumer: Consumer<S>, init: S)
    returns (state: S, ghost visited: seq<Session>)
    ensures state
            == VisitAll(consumer, init, Matching(store, store.listing, (s: Session) => MatchesAll(predicates, s))).state
    ensures visited
            == VisitAll(consumer, init,
                        Matching(store, store.listing, (s: Session) => MatchesAll(predicates, s))).visited
  {
    ghost var p := (s: Session) => MatchesAll(predicates, s);
    state, visited := init, [];
    var canContinue := true;
    var listing := store.listing;
    for i := 0 to |listing|
      invariant canContinue && VisitAll(consumer, init, Matching(store, listing[..i], p)) == Visit(state, visited, true)
    {
      SofarStarts(store, listing, i, p);
      for j := 0 to |listing[i].ids|
        invariant canContinue && VisitAll(consumer, init, Sofar(store, listing, i, j, p)) == Visit(state, visited, true)
      {
        SofarStep(store, listing, i, j, p);
        state, visited, canContinue := VisitDir(store, SessionId(listing[i].flow, listing[i].ids[j]), predicates,
                                                consumer,
                                                init, Sofar(store, listing, i, j, p), state, visited);
        if !canContinue {
          VisitsUpTo(store, listing, i, j + 1, p, consumer, init);
          return;
        }
      }
    }
    assert listing[..|listing|] == listing;
  }

  /** One directory: it may have no session, or one that does not match. */
  method VisitDir<S>(store: Store, of: SessionId, predicates: seq<Predicate>, consumer: Consumer<S>,
                     ghost init: S, ghost sofar: seq<Session>, state: S, ghost visited: seq<Session>)
    returns (state': S, ghost visited': seq<Session>, goesOn: bool)
    requires VisitAll(consumer, init, sofar) == Visit(state, visited, true)
    ensures var matches := of in store.sessions && MatchesAll(predicates, Session(of, store.sessions[of]));
            VisitAll(consumer, init, sofar + if matches then [Session(of, store.sessions[of])] else [])
                == Visit(state', visited', goesOn)
  {
    state', visited', goesOn := state, visited, true;
    assert sofar + [] == sofar;
    if of in store.sessions {
      var candidate := Session(of, store.sessions[of]);
      var ok := Matches(predicates, candidate);
      if ok {
        VisitOne(consumer, init, sofar, candidate);
        var (next, more) := consumer(state, candidate);
        state', visited', goesOn := next, visited + [candidate], more;
      }
    }
  }

  lemma {:induction false} StopsForGood<S>(consumer: Consumer<S>, state: S, some: seq<Session>, all: seq<Session>)
    requires some <= all && !VisitAll(consumer, state, some).goesOn
    ensures VisitAll(consumer, state, all) == VisitAll(consumer, state, some)
    decreases |all|
  {
    if |some| < |all| {
      StopsForGood(consumer, state, some, all[..|all| - 1]);
    } else {
      assert some == all;
    }
  }

  lemma VisitsUpTo<S>(store: Store, listing: seq<FlowDir>, i: nat, j: nat, p: Predicate, consumer: Consumer<S>, init: S)
    requires i < |listing| && j <= |listing[i].ids| && !VisitAll(consumer, init, Sofar(store, listing, i, j, p)).goesOn
    ensures VisitAll(consumer, init, Matching(store, listing, p))
            == VisitAll(consumer, init, Sofar(store, listing, i, j, p))
  {
    FlowPrefix(store, listing[i].flow, listing[i].ids, j, p);
    assert listing[..i + 1][..i] == listing[..i];
    ListingPrefix(store, listing, i + 1, p);
    StopsForGood(consumer, init, Sofar(store, listing, i, j, p), Matching(store, listing, p));
  }

  lemma {:induction false} Visited<S>(consumer: Consumer<S>, state: S, sessions: seq<Session>)
    ensures var v := VisitAll(consumer, state, sessions);
            v.visited <= sessions && (v.goesOn ==> v.visited == sessions) && VisitAll(consumer, state, v.visited) == v
  {
    if sessions != [] {
      var front, s := sessions[..|sessions| - 1], sessions[|sessions| - 1];
      var before := VisitAll(consumer, state, front);
      Visited(consumer, state, front);
      assert sessions == front + [s];
      if before.goesOn {
        VisitOne(consumer, state, front, s);
      } else {
        assert VisitAll(consumer, state, sessions) == before;
      }
    }
  }

  /** MAIN: the consumer sees a prefix of the matching sessions; all of them if it always goes on, and otherwise up to
      and including the one after which it did not. */
  lemma VisitedIsPrefix<S>(consumer: Consumer<S>, state: S, sessions: seq<Session>)
    ensures var v := VisitAll(consumer, state, sessions);
            && v.visited <= sessions && (v.goesOn ==> v.visited == sessions)
            && VisitAll(consumer, state, v.visited) == v
            && forall k :: 0 <= k < |v.visited| ==> VisitAll(consumer, state, v.visited[..k]).goesOn
  {
    Visited(consumer, state, sessions);
    var v := VisitAll(consumer, state, sessions);
    forall k | 0 <= k < |v.visited| ensures VisitAll(consumer, state, v.visited[..k]).goesOn {
      Visited(consumer, state, v.visited[..k]);
      if !VisitAll(consumer, state, v.visited[..k]).goesOn {
        StopsForGood(consumer, state, v.visited[..k], sessions);
      }
    }
  }

  // -------------------------------------------------------------------- expiry

  /** Timeouts; zero means none. */
  datatype Timeouts = Timeouts(idle: nat, max: nat)

  function Earlier(a: Option<int>, b: Option<int>): Option<int> {
    match (a, b)
    case (None, _) => b
    case (_, None) => a
    case (Some(x), Some(y)) => if y < x then b else a
  }

  /** `ValidUntil`: both timeouts count from the last access. */
  function ValidUntil(lastAccessed: int, t: Timeouts): Option<int> {
    Earlier(if t.idle > 0 then Some(lastAccessed + t.idle) else None, if t.max > 0 then Some(lastAccessed + t.max)
            else None)
  }

  /** `isExpiredWithThreshold`: a disposed session is expired whatever the threshold. */
  predicate IsExpired(r: Record, t: Timeouts, threshold: int, now: int) {
    r.state == Disposed || match ValidUntil(r.lastAccessed, t) case None => false
    case Some(until) => now >= until + threshold
  }

  // -------------------------------------------------------------- housekeeping

  /** The clock is read twice for a session: for its deletion and for its disposal. */
  datatype Clock = Clock(first: SessionId -> int, second: SessionId -> int)

  /** What `inspectSession` makes of a session; none if it deletes it. */
  function Inspected(of: SessionId, r: Record, t: Timeouts, keep: nat, clock: Clock): Option<Record> {
    if IsExpired(r, t, keep, clock.first(of)) then None
    else if IsExpired(r, t, 0, clock.second(of)) then Some(r.(state := Disposed))
    else Some(r)
  }

  ghost predicate Distinct(listing: seq<FlowDir>) {
    && (forall i, j :: 0 <= i < j < |listing| ==> listing[i].flow != listing[j].flow)
    && (forall i :: 0 <= i < |listing| ==>
          forall j, k :: 0 <= j < k < |listing[i].ids| ==> listing[i].ids[j] != listing[i].ids[k])
  }

  /** Every session that has been visited is as its inspection left it, and all others are as they were. */
  ghost predicate Kept(before: map<SessionId, Record>, after: map<SessionId, Record>, visited: set<SessionId>,
                       t: Timeouts, keep: nat, clock: Clock)
  {
    forall of: SessionId ::
      Find(after, of) == if of !in before then None
                         else if of in visited then Inspected(of, before[of], t, keep, clock)
                         else Some(before[of])
  }

  class HouseKeeper {
    var sessions: map<SessionId, Record>

    constructor (sessions: map<SessionId, Record>)
      ensures this.sessions == sessions
    {
      this.sessions := sessions;
    }

    /** `inspectSession`: disposing of the environment and the authorization is not part of it. */
    method Inspect(of: SessionId, t: Timeouts, keep: nat, clock: Clock)
      requires of in sessions
      modifies this
      ensures sessions == match Inspected(of, old(sessions)[of], t, keep, clock)
                          case None => old(sessions) - {of}
                          case Some(r) => old(sessions)[of := r]
    {
      if IsExpired(sessions[of], t, keep, clock.first(of)) {
        sessions := sessions[of := sessions[of].(state := Disposed)];
        sessions := sessions - {of};
      } else if IsExpired(sessions[of], t, 0, clock.second(of)) {
        sessions := sessions[of := sessions[of].(state := Disposed)];
      }
    }

    /** A run over everything that is listed. */
    method Run(listing: seq<FlowDir>, t: Timeouts, keep: nat, clock: Clock)
      requires Distinct(listing)
      modifies this
      ensures Kept(old(sessions), sessions, AllIds(listing), t, keep, clock)
    {
      for i := 0 to |listing|
        invariant Kept(old(sessions), sessions, AllIds(listing[..i]), t, keep, clock)
      {
        for j := 0 to |listing[i].ids|
          invariant Kept(old(sessions), sessions, IdsBefore(listing, i, j), t, keep, clock)
        {
          NotYetVisited(listing, i, j);
          var of := SessionId(listing[i].flow, listing[i].ids[j]);
          if of in sessions {
            Inspect(of, t, keep, clock);
          }
        }
        FlowVisited(listing, i);
      }
      assert listing[..|listing|] == listing;
    }
  }

  ghost function IdsOf(dir: FlowDir): set<SessionId> { set j | 0 <= j < |dir.ids| :: SessionId(dir.flow, dir.ids[j]) }

  ghost function AllIds(listing: seq<FlowDir>): set<SessionId> {
    if listing == [] then {} else AllIds(listing[..|listing| - 1]) + IdsOf(listing[|listing| - 1])
  }

  /** The directories of the flows before one, and the first ones of that. */
  ghost function IdsBefore(listing: seq<FlowDir>, i: nat, j: nat): set<SessionId>
    requires i < |listing| && j <= |listing[i].ids|
  {
    AllIds(listing[..i]) + IdsOf(FlowDir(listing[i].flow, listing[i].ids[..j]))
  }

  lemma {:induction false} AllIdsAre(listing: seq<FlowDir>, of: SessionId)
    ensures of in AllIds(listing) <==> Listed(listing, of)
  {
    if listing != [] {
      AllIdsAre(listing[..|listing| - 1], of);
      ListedMore(listing, of);
      assert of in IdsOf(listing[|listing| - 1])
             <==> listing[|listing| - 1].flow == of.flow && of.id in listing[|listing| - 1].ids;
    }
  }

  lemma NotYetVisited(listing: seq<FlowDir>, i: nat, j: nat)
    requires Distinct(listing) && i < |listing| && j < |listing[i].ids|
    ensures var of := SessionId(listing[i].flow, listing[i].ids[j]);
            of !in IdsBefore(listing, i, j) && IdsBefore(listing, i, j + 1) == IdsBefore(listing, i, j) + {of}
    ensures IdsBefore(listing, i, 0) == AllIds(listing[..i])
  {
    var of := SessionId(listing[i].flow, listing[i].ids[j]);
    AllIdsAre(listing[..i], of);
    assert forall k :: 0 <= k < i ==> listing[..i][k] == listing[k];
    assert listing[i].ids[..j + 1] == listing[i].ids[..j] + [listing[i].ids[j]];
    assert forall x :: x in IdsBefore(listing, i, j + 1) <==> x in IdsBefore(listing, i, j) || x == of;
  }

  lemma FlowVisited(listing: seq<FlowDir>, i: nat)
    requires i < |listing|
    ensures IdsBefore(listing, i, 0) == AllIds(listing[..i])
    ensures IdsBefore(listing, i, |listing[i].ids|) == AllIds(listing[..i + 1])
  {
    assert listing[..i + 1][..i] == listing[..i];
    assert listing[i].ids[..|listing[i].ids|] == listing[i].ids;
  }

  /** Somebody last came so long ago that one of the timeouts, and some more time, has passed. */
  predicate Outlived(r: Record, t: Timeouts, more: nat, now: int) {
    (t.idle > 0 && now - r.lastAccessed >= t.idle + more) || (t.max > 0 && now - r.lastAccessed >= t.max + more)
  }

  /** MAIN: a run deletes exactly the listed sessions that are disposed, or for which a timeout and the time to keep
      them have passed. Of the others it disposes the listed ones for which a timeout has passed by now, and leaves
      the rest. */
  lemma RunDeletes(before: map<SessionId, Record>, after: map<SessionId, Record>, listing: seq<FlowDir>,
                   t: Timeouts, keep: nat, clock: Clock, of: SessionId)
    requires Kept(before, after, AllIds(listing), t, keep, clock) && of in before
    ensures var r := before[of];
            && (of !in after <==> Listed(listing, of) && (r.state == Disposed || Outlived(r, t, keep, clock.first(of))))
            && (of in after ==>
                  after[of] == if Listed(listing, of) && Outlived(r, t, 0, clock.second(of)) then r.(state := Disposed)
                    else r)
  {
    AllIdsAre(listing, of);
    assert Find(after, of) == if of in AllIds(listing) then Inspected(of, before[of], t, keep, clock)
           else Some(before[of]);
  }

  /** MAIN: a session that is expired at one run, and that nobody has brought back to life, is gone after the next,
      however long expired sessions are to be kept: the first run disposes it, and disposed ones are not kept. */
  lemma GoneAfterNextRun(before: map<SessionId, Record>, between: map<SessionId, Record>,
                         between': map<SessionId, Record>,
                         after: map<SessionId, Record>, listing: seq<FlowDir>, listing': seq<FlowDir>,
                         t: Timeouts, keep: nat, clock: Clock, clock': Clock, of: SessionId)
    requires Kept(before, between, AllIds(listing), t, keep, clock)
    requires Kept(between', after, AllIds(listing'), t, keep, clock')
    requires of in before && Listed(listing, of) && IsExpired(before[of], t, 0, clock.second(of))
    requires of in between' ==> of in between && between'[of].state == between[of].state && Listed(listing', of)
    ensures of !in after
  {
    AllIdsAre(listing, of);
    AllIdsAre(listing', of);
    assert Find(between, of) == Inspected(of, before[of], t, keep, clock);
    assert Find(after, of) == if of !in between' then None else Inspected(of, between'[of], t, keep, clock');
  }

  // ------------------------------------------------------------ touch threshold

  const MINUTE: nat := 60_000_000_000

  /** The threshold of `NewFsRepository`, in nanoseconds. */
  function TouchThreshold(t: Timeouts): nat {
    var a := if t.idle > 0 then t.idle else MINUTE;
    var b := if 0 < t.max < a then t.max else a;
    if b > MINUTE then MINUTE else b / 2
  }

  /** MAIN: the threshold is below every timeout, and at most a minute. */
  lemma ThresholdIsBelow(t: Timeouts)
    ensures TouchThreshold(t) <= MINUTE
    ensures t.idle > 0 ==> TouchThreshold(t) < t.idle
    ensures t.max > 0 ==> TouchThreshold(t) < t.max
  {
  }

  const MILLI: nat := 1_000_000

  /** The activity of a connected session in milliseconds: `stored` is the time of the file, once it has been touched.
      */
  datatype Activity = Activity(last: int, stored: Option<int>)

  /** `onConnectionAction` on the times. */
  function Touched(a: Activity, t: Timeouts, now: int): Activity {
    if a.last + TouchThreshold(t) / MILLI < now then Activity(now, Some(now)) else a
  }

  function TouchedAll(a: Activity, t: Timeouts, times: seq<int>): Activity {
    if times == [] then a else Touched(TouchedAll(a, t, times[..|times| - 1]), t, times[|times| - 1])
  }

  ghost predicate InOrder(times: seq<int>) { forall i, j :: 0 <= i < j < |times| ==> times[i] <= times[j] }

  /** MAIN: from the first touch on, the stored time lags behind every action by no more than the threshold; and with
      timeouts of whole milliseconds the session is not expired at any action. */
  lemma {:induction false} ActiveIsNotExpired(a: Activity, t: Timeouts, times: seq<int>, r: Record)
    requires InOrder(times) && times != [] && a.stored == None
    requires t.idle % MILLI == 0 && t.max % MILLI == 0
    ensures var b := TouchedAll(a, t, times);
            b.stored.Some? ==>
              var now, stored := times[|times| - 1], b.stored.value;
              && b.last == stored && stored <= now <= stored + TouchThreshold(t) / MILLI
              && (r.lastAccessed == stored && r.state != Disposed ==>
                    !IsExpired(r, Timeouts(t.idle / MILLI, t.max / MILLI), 0, now))
  {
    var n := |times| - 1;
    ThresholdIsBelow(t);
    if n > 0 {
      ActiveIsNotExpired(a, t, times[..n], r);
      assert times[..n][n - 1] <= times[n];
    }
    assert TouchedAll(a, t, times[..0]) == a;
  }

  // ------------------------------------------------------- comparing with a reader

  const CHUNK: nat := 4096

  /** `isReaderEqualToBytes` on a reader that fills the buffer as far as it can. */
  method IsReaderEqualToBytes(content: Bytes, right: Bytes) returns (equal: bool)
    ensures equal <==> right <= content && (|right| % CHUNK == 0 || |right| == |content|)
  {
    var position: nat := 0;
    var offset: nat := 0;
    while offset < |right|
      invariant position == (if offset < |right| then offset else |right|)
      invariant offset % CHUNK == 0 && position <= |content| && right[..position] == content[..position]
      invariant offset > |right| ==> |right| == |content|
    {
      var segment := if |right| - offset > CHUNK then CHUNK else |right| - offset;
      if position == |content| { return false; }
      var read := if |content| - position > CHUNK then CHUNK else |content| - position;
      if read != segment { return false; }
      if content[position..position + segment] != right[offset..offset + segment] {
        if right <= content {
          PrefixPart(content, right, offset, offset + segment);
          assert false;
        }
        return false;
      }
      SamePart(content, right, offset, offset + segment);
      position := position + read;
      offset := offset + CHUNK;
    }
    assert right[..|right|] == right;
    return true;
  }

  lemma SamePart(content: Bytes, right: Bytes, from: nat, to: nat)
    requires from <= to <= |right| && to <= |content|
    requires right[..from] == content[..from] && content[from..to] == right[from..to]
    ensures right[..to] == content[..to]
  {
    assert right[..to] == right[..from] + right[from..to];
    assert content[..to] == content[..from] + content[from..to];
  }

  lemma PrefixPart(content: Bytes, right: Bytes, from: nat, to: nat)
    requires from <= to <= |right| && right <= content
    ensures content[from..to] == right[from..to]
  {
  }
}
