/** Laws of the user database: lookups, ids, what `Ensure` keeps and whether it settles. */
module UserDbLaws {
  import opened Bytes
  import opened ColonCodec
  import opened UnixRows
  import opened UserDb

  // ---------------------------------------------- lookups refine a linear scan

  lemma {:induction false} IndexByIsLast<T, K>(lines: seq<Line<T>>, key: T -> K, i: nat)
    requires IsRow(lines, i)
    ensures key(lines[i].entry) in IndexBy(lines, key) && i <= IndexBy(lines, key)[key(lines[i].entry)]
  {
    var n := |lines| - 1;
    if i < n {
      IndexByIsLast(lines[..n], key, i);
    }
  }

  lemma {:induction false} FindLastIs<T, K>(lines: seq<Line<T>>, key: T -> K, at: nat)
    requires IsRow(lines, at)
    requires forall j :: at < j < |lines| && lines[j].Parsed? ==> key(lines[j].entry) != key(lines[at].entry)
    ensures FindLast(lines, key, key(lines[at].entry)) == Some(lines[at].entry)
  {
    if at == 0 {
      FindLastNone(lines[1..], key, key(lines[0].entry));
    } else {
      FindLastIs(lines[1..], key, at - 1);
    }
  }

  lemma {:induction false} FindLastNone<T, K>(lines: seq<Line<T>>, key: T -> K, k: K)
    requires forall j :: 0 <= j < |lines| && lines[j].Parsed? ==> key(lines[j].entry) != k
    ensures FindLast(lines, key, k) == None
  {
    if lines != [] {
      FindLastNone(lines[1..], key, k);
    }
  }

  /** MAIN: a lookup in an index gives what scanning all lines for the last match gives. */
  lemma LookupIsScan<T, K>(lines: seq<Line<T>>, key: T -> K, k: K)
    ensures FindLast(lines, key, k) ==
            if k in IndexBy(lines, key) then Some(lines[IndexBy(lines, key)[k]].entry) else None
  {
    forall j | 0 <= j < |lines| && lines[j].Parsed?
      ensures key(lines[j].entry) in IndexBy(lines, key) && j <= IndexBy(lines, key)[key(lines[j].entry)]
    {
      IndexByIsLast(lines, key, j);
    }
    if k in IndexBy(lines, key) {
      FindLastIs(lines, key, IndexBy(lines, key)[k]);
    } else {
      FindLastNone(lines, key, k);
    }
  }

  lemma LookupUserIsScan(users: seq<Line<PasswdRow>>, req: UserReq)
    ensures match LookupUser(users, req)
            case Some(at) => IsRow(users, at) && FindUser(users, req) == Some(users[at].entry)
            case None => FindUser(users, req) == None
  {
    LookupIsScan(users, UserName, req.name);
    if req.uid.Some? {
      LookupIsScan(users, UserId, req.uid.value);
    }
  }

  // ------------------------------------------------------------ id allocation

  lemma {:induction false} HighestBounds<T>(lines: seq<Line<T>>, id: T -> uint32, skipped: T -> bool)
    ensures forall i :: 0 <= i < |lines| && lines[i].Parsed? && !skipped(lines[i].entry) ==>
              id(lines[i].entry) <= Highest(lines, id, skipped)
  {
    if lines != [] {
      HighestBounds(lines[..|lines| - 1], id, skipped);
    }
  }

  ghost predicate InUse<T>(lines: seq<Line<T>>, id: T -> uint32, x: uint32) {
    exists i :: 0 <= i < |lines| && lines[i].Parsed? && id(lines[i].entry) == x
  }

  /** MAIN: a generated id is never that of `nobody`. It is at least 1000 exactly when the highest id leaves room,
      and then no row has it; without room it is 0, the id of `root`. */
  lemma GeneratedId<T>(lines: seq<Line<T>>, id: T -> uint32, skipped: T -> bool)
    requires forall t :: skipped(t) ==> id(t) == NOBODY
    ensures var highest := Highest(lines, id, skipped);
            var x := NextId(highest);
            && x != NOBODY
            && (x >= 1000 <==> highest < 0xffff_ffff)
            && (highest < 0xffff_ffff ==> x > highest && !InUse(lines, id, x))
            && (highest == 0xffff_ffff ==> x == 0)
  {
    HighestBounds(lines, id, skipped);
  }

  /** The next id generated is above the last one exactly when there was room for both. */
  lemma GeneratedIdsIncrease<T>(lines: seq<Line<T>>, row: T, id: T -> uint32, skipped: T -> bool)
    requires id(row) == NextId(Highest(lines, id, skipped)) && !skipped(row)
    ensures NextId(Highest(lines + [Parsed(row)], id, skipped)) > id(row) <==> Highest(lines, id, skipped) < 0xffff_fffe
  {
    assert (lines + [Parsed(row)])[..|lines|] == lines;
  }

  // ---------------------------------------------------- empty lines do not matter

  lemma {:induction false} ScanNonEmpty<T, K>(lines: seq<Line<T>>, key: T -> K, k: K)
    ensures FindLast(NonEmpty(lines), key, k) == FindLast(lines, key, k)
  {
    if lines != [] {
      ScanNonEmpty(lines[1..], key, k);
      if lines[0] == Raw([]) {
        assert NonEmpty(lines) == NonEmpty(lines[1..]);
      } else {
        assert NonEmpty(lines)[1..] == NonEmpty(lines[1..]);
      }
    }
  }

  lemma {:induction false} MembersNonEmpty(groups: seq<Line<GroupRow>>, user: Bytes)
    ensures MemberRows(NonEmpty(groups), user) == MemberRows(groups, user)
  {
    if groups != [] {
      MembersNonEmpty(groups[1..], user);
      if groups[0] == Raw([]) {
        assert NonEmpty(groups) == NonEmpty(groups[1..]);
      } else {
        assert NonEmpty(groups)[1..] == NonEmpty(groups[1..]);
      }
    }
  }

  function Compact(db: Db): Db { Db(NonEmpty(db.users), NonEmpty(db.groups), NonEmpty(db.shadows)) }

  lemma FindNonEmpty(db: Db, req: UserReq)
    ensures FindUser(NonEmpty(db.users), req) == FindUser(db.users, req)
    ensures FindGroup(NonEmpty(db.groups), req.group) == FindGroup(db.groups, req.group)
  {
    ScanNonEmpty(db.users, UserName, req.name);
    ScanNonEmpty(db.groups, GroupName, req.group.name);
    if req.uid.Some? { ScanNonEmpty(db.users, UserId, req.uid.value); }
    if req.group.gid.Some? { ScanNonEmpty(db.groups, GroupId, req.group.gid.value); }
  }

  lemma FulfilledNonEmpty(db: Db, req: UserReq)
    ensures Fulfilled(Compact(db), req) == Fulfilled(db, req)
  {
    FindNonEmpty(db, req);
    if FindUser(db.users, req).Some? {
      MembersNonEmpty(db.groups, FindUser(db.users, req).value.name);
    }
  }

  // -------------------------------------------------- groups asked for by name

  predicate NamedOnly(reqs: seq<GroupReq>) {
    forall i :: 0 <= i < |reqs| ==> reqs[i].gid == None && reqs[i].name != []
  }

  /** How ensuring groups by name may grow a table: rows and their index entries stay, new rows have no members. */
  ghost predicate Grown(t: GroupTable, u: GroupTable) {
    && t.lines <= u.lines && TableOk(u)
    && (forall k :: k in t.byName ==> k in u.byName && u.byName[k] == t.byName[k])
    && (forall k :: k in u.byName && k !in t.byName ==> u.byName[k] >= |t.lines|)
    && (forall i :: |t.lines| <= i < |u.lines| ==>
          u.lines[i].Parsed? && u.lines[i].entry.userNames == [] && u.lines[i].entry.name !in t.byName)
  }

  /** A group asked for by name is created or as it should be. */
  lemma EnsureGroupGrows(t: GroupTable, req: GroupReq, opts: Opts)
    requires TableOk(t) && req.gid == None && req.name != [] && EnsureGroup(t, req, opts).Ok?
    ensures var s := EnsureGroup(t, req, opts).value;
            && s.outcome != Modified && Grown(t, s.table)
            && req.name in s.table.byName && s.table.byName[req.name] == s.at
  {
    if EnsureGroup(t, req, opts).value.outcome == Created {
      assert EnsureGroup(t, req, opts).value.table.lines[..|t.lines|] == t.lines;
    }
  }

  lemma GrownTwice(t: GroupTable, u: GroupTable, v: GroupTable)
    requires Grown(t, u) && Grown(u, v)
    ensures Grown(t, v)
  {
    forall i | |t.lines| <= i < |v.lines|
      ensures v.lines[i].Parsed? && v.lines[i].entry.userNames == [] && v.lines[i].entry.name !in t.byName
    {
      if i < |u.lines| {
        assert v.lines[i] == u.lines[i];
      }
    }
  }

  ghost predicate RefsNamed(u: GroupTable, reqs: seq<GroupReq>, refs: seq<nat>) {
    |refs| == |reqs| && forall i :: 0 <= i < |reqs| ==> reqs[i].name in u.byName && u.byName[reqs[i].name] == refs[i]
  }

  lemma RefsNamedLater(u: GroupTable, v: GroupTable, reqs: seq<GroupReq>, refs: seq<nat>, req: GroupReq, at: nat)
    requires RefsNamed(u, reqs, refs) && Grown(u, v) && req.name in v.byName && v.byName[req.name] == at
    ensures RefsNamed(v, reqs + [req], refs + [at])
  {
  }

  lemma NamedStep(t: GroupTable, before: GroupTable, front: seq<GroupReq>, refs: seq<nat>, req: GroupReq, opts: Opts)
    requires Grown(t, before) && RefsNamed(before, front, refs) && req.gid == None && req.name != []
    requires EnsureGroup(before, req, opts).Ok?
    ensures var s := EnsureGroup(before, req, opts).value;
            Grown(t, s.table) && RefsNamed(s.table, front + [req], refs + [s.at])
  {
    var s := EnsureGroup(before, req, opts).value;
    EnsureGroupGrows(before, req, opts);
    GrownTwice(t, before, s.table);
    RefsNamedLater(before, s.table, front, refs, req, s.at);
  }

  /** The last of several requirements is ensured on the table that those before it leave behind. */
  lemma LastEnsured(t: GroupTable, reqs: seq<GroupReq>, opts: Opts)
    requires TableOk(t) && reqs != []
    ensures var before, req := EnsureGroups(t, reqs[..|reqs| - 1], opts), GroupOrDefaults(reqs[|reqs| - 1], []);
            EnsureGroups(t, reqs, opts) ==
            if before.refs.Err? then before
            else match EnsureGroup(before.table, req, opts)
                 case Err(e) => GroupsStep(before.table, Err(e))
                 case Ok(s) => GroupsStep(s.table, Ok(before.refs.value + [s.at]))
  {
  }

  lemma {:induction false} NamedGroups(t: GroupTable, reqs: seq<GroupReq>, opts: Opts)
    requires TableOk(t) && NamedOnly(reqs)
    ensures var r := EnsureGroups(t, reqs, opts);
            Grown(t, r.table) && (r.refs.Ok? ==> RefsNamed(r.table, reqs, r.refs.value))
    decreases |reqs|
  {
    if reqs != [] {
      var front, req := reqs[..|reqs| - 1], reqs[|reqs| - 1];
      var before := EnsureGroups(t, front, opts);
      NamedGroups(t, front, opts);
      LastEnsured(t, reqs, opts);
      assert front + [req] == reqs && GroupOrDefaults(req, []) == req;
      if before.refs.Ok? && EnsureGroup(before.table, req, opts).Ok? {
        NamedStep(t, before.table, front, before.refs.value, req, opts);
      }
    }
  }

  // -------------------------------------------------------- counting members

  function Counts(lines: seq<Line<GroupRow>>, user: Bytes): (c: seq<nat>)
    ensures |c| == |lines|
  {
    seq(|lines|, i requires 0 <= i < |lines| => if lines[i].Parsed? then Count(lines[i].entry.userNames, user) else 0)
  }

  function Sum(c: seq<nat>): nat { if c == [] then 0 else c[0] + Sum(c[1..]) }

  lemma {:induction false} SumUpdate(c: seq<nat>, at: nat, x: nat)
    requires at < |c|
    ensures Sum(c[at := x]) == Sum(c) - c[at] + x
  {
    if at == 0 {
      assert c[0 := x][1..] == c[1..];
    } else {
      SumUpdate(c[1..], at - 1, x);
      assert c[at := x][1..] == c[1..][at - 1 := x];
    }
  }

  lemma {:induction false} SumZero(c: seq<nat>)
    ensures Sum(c) == 0 <==> forall i :: 0 <= i < |c| ==> c[i] == 0
  {
    if c != [] {
      SumZero(c[1..]);
      assert forall i :: 0 < i < |c| ==> c[i] == c[1..][i - 1];
      assert forall i :: 0 <= i < |c| - 1 ==> c[1..][i] == c[i + 1];
    }
  }

  /** The groups of a user: as many as there are listings, and made of the groups that list the user. */
  lemma {:induction false} MemberRowsAre(lines: seq<Line<GroupRow>>, user: Bytes)
    ensures |MemberRows(lines, user)| == Sum(Counts(lines, user))
    ensures forall g :: g in MemberRows(lines, user) <==>
              exists i :: 0 <= i < |lines| && lines[i] == Parsed(g) && Counts(lines, user)[i] > 0
  {
    if lines != [] {
      MemberRowsAre(lines[1..], user);
      var head := if lines[0].Parsed? then Times(lines[0].entry, Counts(lines, user)[0]) else [];
      assert Counts(lines, user)[1..] == Counts(lines[1..], user);
      assert MemberRows(lines, user) == head + MemberRows(lines[1..], user);
      assert Counts(lines, user)[0] > 0 && lines[0].Parsed? ==> head[0] == lines[0].entry;
      forall g ensures g in MemberRows(lines, user) <==>
          exists i :: 0 <= i < |lines| && lines[i] == Parsed(g) && Counts(lines, user)[i] > 0
      {
        if g in MemberRows(lines[1..], user) {
          var i :| 0 <= i < |lines[1..]| && lines[1..][i] == Parsed(g) && Counts(lines[1..], user)[i] > 0;
          assert lines[i + 1] == Parsed(g) && Counts(lines, user)[i + 1] > 0;
        }
        if i :| 0 <= i < |lines| && lines[i] == Parsed(g) && Counts(lines, user)[i] > 0 {
          if i > 0 {
            assert lines[1..][i - 1] == Parsed(g) && Counts(lines[1..], user)[i - 1] > 0;
          }
        }
      }
    }
  }

  lemma {:induction false} CountTimes(name: Bytes, n: nat, other: Bytes)
    ensures Count(Times(name, n), other) == if name == other then n else 0
  {
    if n > 0 {
      CountTimes(name, n - 1, other);
      assert Times(name, n)[1..] == Times(name, n - 1);
    }
  }

  lemma {:induction false} CountWithout(names: seq<Bytes>, gone: Bytes, name: Bytes)
    ensures Count(Without(names, gone), name) == if gone == name then 0 else Count(names, name)
  {
    if names != [] {
      CountWithout(names[1..], gone, name);
      CountConcat(if names[0] == gone then [] else [names[0]], Without(names[1..], gone), name);
    }
  }

  lemma CountWithUnique(names: seq<Bytes>, name: Bytes)
    ensures Count(WithUnique(names, name), name) == if Count(names, name) > 0 then Count(names, name) else 1
  {
    CountPositive(names, name);
    CountConcat(names, [name], name);
  }

  // --------------------------------------------- memberships of a created user

  lemma JoinedCounts(lines: seq<Line<GroupRow>>, refs: seq<nat>, name: Bytes)
    ensures var c := Counts(JoinedGroups(lines, refs, name), name);
            |c| == |lines| && forall i :: 0 <= i < |lines| ==>
              c[i] == Counts(lines, name)[i] + if lines[i].Parsed? then Occurs(refs, i) else 0
  {
    forall i | 0 <= i < |lines| && lines[i].Parsed?
      ensures Counts(JoinedGroups(lines, refs, name), name)[i] == Counts(lines, name)[i] + Occurs(refs, i)
    {
      CountConcat(lines[i].entry.userNames, Times(name, Occurs(refs, i)), name);
      CountTimes(name, Occurs(refs, i), name);
    }
  }

  ghost predicate AllRows(lines: seq<Line<GroupRow>>, refs: seq<nat>) {
    forall j :: 0 <= j < |refs| ==> IsRow(lines, refs[j])
  }

  lemma JoinedStep(lines: seq<Line<GroupRow>>, refs: seq<nat>, name: Bytes)
    requires AllRows(lines, refs) && refs != []
    ensures var at := refs[|refs| - 1];
            var c := Counts(JoinedGroups(lines, refs[..|refs| - 1], name), name);
            at < |c| && Counts(JoinedGroups(lines, refs, name), name) == c[at := c[at] + 1]
  {
    JoinedCounts(lines, refs, name);
    JoinedCounts(lines, refs[..|refs| - 1], name);
  }

  lemma {:induction false} JoinedSum(lines: seq<Line<GroupRow>>, refs: seq<nat>, name: Bytes)
    requires AllRows(lines, refs)
    ensures Sum(Counts(JoinedGroups(lines, refs, name), name)) == Sum(Counts(lines, name)) + |refs|
    decreases |refs|
  {
    if refs == [] {
      JoinedCounts(lines, refs, name);
      assert Counts(JoinedGroups(lines, refs, name), name) == Counts(lines, name);
    } else {
      var front, at := refs[..|refs| - 1], refs[|refs| - 1];
      JoinedStep(lines, refs, name);
      JoinedSum(lines, front, name);
      var c := Counts(JoinedGroups(lines, front, name), name);
      SumUpdate(c, at, c[at] + 1);
    }
  }

  // ------------------------------------------- memberships of an existing user

  function AtLeastOne(n: nat): nat { if n == 0 then 1 else n }

  ghost predicate GidsDistinct(lines: seq<Line<GroupRow>>) {
    forall i, j :: 0 <= i < j < |lines| && lines[i].Parsed? && lines[j].Parsed? ==>
      lines[i].entry.gid != lines[j].entry.gid
  }

  /** Whether a user is still in a group that is not wanted after the regrouping. */
  predicate Remains(lines: seq<Line<GroupRow>>, refs: seq<nat>, name: Bytes, at: nat) {
    IsRow(lines, at) && name in lines[at].entry.userNames && !IsStale(lines, refs, name, at)
  }

  /** How often each group lists an existing user in the end. */
  function FinalCounts(lines: seq<Line<GroupRow>>, refs: seq<nat>, name: Bytes): (c: seq<nat>)
    ensures |c| == |lines|
  {
    var c := Counts(lines, name);
    seq(|lines|, i requires 0 <= i < |lines| =>
      if i in refs then AtLeastOne(c[i]) else if Remains(lines, refs, name, i) then c[i] else 0)
  }

  lemma RegroupedCount(lines: seq<Line<GroupRow>>, refs: seq<nat>, former: Bytes, name: Bytes, at: nat)
    requires IsRow(lines, at)
    ensures Count(RegroupedMembers(lines, refs, former, name, at), name) == FinalCounts(lines, refs, name)[at]
  {
    var names := lines[at].entry.userNames;
    var members := if former == name then names else Without(names, former);
    CountWithout(names, former, name);
    CountWithUnique(members, name);
    CountWithout(members, name, name);
    CountPositive(names, name);
  }

  lemma RegroupedCounts(lines: seq<Line<GroupRow>>, refs: seq<nat>, former: Bytes, name: Bytes)
    requires AllRows(lines, refs)
    ensures Counts(RegroupedGroups(lines, refs, former, name), name) == FinalCounts(lines, refs, name)
  {
    forall i | 0 <= i < |lines|
      ensures Counts(RegroupedGroups(lines, refs, former, name), name)[i] == FinalCounts(lines, refs, name)[i]
    {
      if lines[i].Parsed? {
        RegroupedCount(lines, refs, former, name, i);
      }
    }
  }

  /** With distinct gids nobody remains anywhere. */
  lemma NobodyRemains(lines: seq<Line<GroupRow>>, refs: seq<nat>, name: Bytes)
    requires AllRows(lines, refs) && GidsDistinct(lines)
    ensures FinalCounts(lines, refs, name) == Masked(refs, Counts(lines, name))
  {
    forall i | 0 <= i < |lines| && i !in refs ensures !Remains(lines, refs, name, i) {
      if IsRow(lines, i) && name in lines[i].entry.userNames {
        assert !HasGidOf(lines, refs, lines[i].entry.gid);
      }
    }
  }

  function SumOver(refs: seq<nat>, c: seq<nat>): nat
    requires forall j :: 0 <= j < |refs| ==> refs[j] < |c|
  {
    if refs == [] then 0
    else
      var front, at := refs[..|refs| - 1], refs[|refs| - 1];
      SumOver(front, c) + if at in front then 0 else AtLeastOne(c[at])
  }

  function Masked(refs: seq<nat>, c: seq<nat>): seq<nat> {
    seq(|c|, i requires 0 <= i < |c| => if i in refs then AtLeastOne(c[i]) else 0)
  }

  lemma {:induction false} MaskedSum(refs: seq<nat>, c: seq<nat>)
    requires forall j :: 0 <= j < |refs| ==> refs[j] < |c|
    ensures Sum(Masked(refs, c)) == SumOver(refs, c)
    decreases |refs|
  {
    if refs == [] {
      SumZero(Masked(refs, c));
    } else {
      var front, at := refs[..|refs| - 1], refs[|refs| - 1];
      MaskedSum(front, c);
      assert forall i :: i in refs <==> i in front || i == at by { assert refs == front + [at]; }
      SumUpdate(Masked(front, c), at, AtLeastOne(c[at]));
      assert Masked(refs, c) == Masked(front, c)[at := AtLeastOne(c[at])];
    }
  }

  /** The listings of an existing user in the end: those in the wanted groups, and those in which it remains. */
  lemma RegroupedSum(lines: seq<Line<GroupRow>>, refs: seq<nat>, former: Bytes, name: Bytes)
    requires AllRows(lines, refs)
    ensures Counts(RegroupedGroups(lines, refs, former, name), name) == FinalCounts(lines, refs, name)
    ensures Sum(Counts(RegroupedGroups(lines, refs, former, name), name))
            == SumOver(refs, Counts(lines, name)) + Sum(RemainingCounts(lines, refs, name))
  {
    var c := Counts(lines, name);
    RegroupedCounts(lines, refs, former, name);
    MaskedSum(refs, c);
    SumPlus(Masked(refs, c), RemainingCounts(lines, refs, name), FinalCounts(lines, refs, name));
  }

  function RemainingCounts(lines: seq<Line<GroupRow>>, refs: seq<nat>, name: Bytes): seq<nat> {
    var c := Counts(lines, name);
    seq(|lines|, i requires 0 <= i < |lines| => if i !in refs && Remains(lines, refs, name, i) then c[i] else 0)
  }

  lemma {:induction false} SumPlus(a: seq<nat>, b: seq<nat>, c: seq<nat>)
    requires |a| == |b| == |c| && forall i :: 0 <= i < |c| ==> c[i] == a[i] + b[i]
    ensures Sum(c) == Sum(a) + Sum(b)
  {
    if c != [] {
      SumPlus(a[1..], b[1..], c[1..]);
    }
  }

  /** How often the group found by a name lists a user. */
  function Listings(t: GroupTable, group: Bytes, user: Bytes): nat {
    if group in t.byName && IsRow(t.lines, t.byName[group]) then Count(t.lines[t.byName[group]].entry.userNames, user)
    else 0
  }

  function ListedBy(groups: seq<Line<GroupRow>>, group: Bytes, user: Bytes): nat {
    match FindLast(groups, GroupName, group) case Some(g) => Count(g.userNames, user) case None => 0
  }

  /** The listings once the primary group is as it is asked for are those in the files, but that a renamed group is
      looked up by its new name. */
  lemma PrimaryListings(db: Db, req: UserReq, opts: Opts, group: Bytes, user: Bytes)
    requires EnsureGroup(LoadedTable(db.groups), GroupOrDefaults(req.group, req.name), opts).Ok?
    requires GroupOrDefaults(req.group, req.name).name != []
    ensures var greq := GroupOrDefaults(req.group, req.name);
            Listings(PrimaryTable(db, req, opts), group, user)
            == match LookupGroup(LoadedTable(db.groups), greq)
               case Some(p) =>
                 if db.groups[p].entry.name == greq.name then ListedBy(db.groups, group, user)
                 else if group == greq.name then Count(db.groups[p].entry.userNames, user)
                 else if group == db.groups[p].entry.name then 0
                 else ListedBy(db.groups, group, user)
               case None => ListedBy(db.groups, group, user)
  {
    var greq := GroupOrDefaults(req.group, req.name);
    LookupIsScan(db.groups, GroupName, group);
    LookupIsScan(db.groups, GroupName, greq.name);
    EnsureGroupKeeps(LoadedTable(db.groups), greq, opts);
  }

  predicate NamedBefore(reqs: seq<GroupReq>, name: Bytes) { exists j :: 0 <= j < |reqs| && reqs[j].name == name }

  /** The memberships an existing user ends up with: one in each wanted group, or as many as it has there. */
  function RequiredTotal(t: GroupTable, reqs: seq<GroupReq>, user: Bytes): nat {
    if reqs == [] then 0
    else
      var front, req := reqs[..|reqs| - 1], reqs[|reqs| - 1];
      RequiredTotal(t, front, user) + if NamedBefore(front, req.name) then 0
        else AtLeastOne(Listings(t, req.name, user))
  }

  lemma ListingsAt(t: GroupTable, u: GroupTable, group: Bytes, user: Bytes)
    requires TableOk(t) && Grown(t, u) && group in u.byName
    ensures Counts(u.lines, user)[u.byName[group]] == Listings(t, group, user)
  {
    if group in t.byName {
      assert u.lines[t.byName[group]] == t.lines[t.byName[group]];
    }
  }

  lemma {:induction false} RequiredTotalIs(t: GroupTable, u: GroupTable, reqs: seq<GroupReq>,
                                           refs: seq<nat>, user: Bytes)
    requires TableOk(t) && Grown(t, u) && RefsNamed(u, reqs, refs)
    ensures AllRows(u.lines, refs) && SumOver(refs, Counts(u.lines, user)) == RequiredTotal(t, reqs, user)
    decreases |reqs|
  {
    if reqs != [] {
      var front, req := reqs[..|reqs| - 1], reqs[|reqs| - 1];
      var refs', at := refs[..|refs| - 1], refs[|refs| - 1];
      RequiredTotalIs(t, u, front, refs', user);
      ListingsAt(t, u, req.name, user);
      assert at in refs' <==> NamedBefore(front, req.name) by {
        if j :| 0 <= j < |front| && front[j].name == req.name {
          assert refs'[j] == at;
        }
        if at in refs' {
          var j :| 0 <= j < |refs'| && refs'[j] == at;
          assert front[j].name == u.lines[at].entry.name == req.name;
        }
      }
    }
  }

  // ------------------------------------------------------- new groups, new ids

  lemma {:induction false} HighestAppended(lines: seq<Line<GroupRow>>, row: GroupRow)
    ensures Highest(lines + [Parsed(row)], GroupId, IsNoGroup) <=
            if row.gid > Highest(lines, GroupId, IsNoGroup) then row.gid else Highest(lines, GroupId, IsNoGroup)
  {
    assert (lines + [Parsed(row)])[..|lines|] == lines;
  }

  /** Enough ids are left above the highest one, and above one that is asked for, for a number of new groups. */
  ghost predicate Room(lines: seq<Line<GroupRow>>, req: GroupReq, n: nat) {
    && Highest(lines, GroupId, IsNoGroup) + 2 * n < 0xffff_ffff && 1000 + 2 * n < 0xffff_ffff
    && (req.gid.Some? ==> req.gid.value + 2 * n < 0xffff_ffff)
  }

  /** Gids are distinct but perhaps for those of two groups. */
  ghost predicate DistinctBut(lines: seq<Line<GroupRow>>, p: nat, q: nat) {
    && IsRow(lines, p) && IsRow(lines, q)
    && forall i, j :: 0 <= i < j < |lines| && lines[i].Parsed? && lines[j].Parsed? && !(i in {p, q} && j in {p, q}) ==>
         lines[i].entry.gid != lines[j].entry.gid
  }

  lemma CreatedIsDistinct(lines: seq<Line<GroupRow>>, row: GroupRow)
    requires Room(lines, NO_GROUP, 1) && row.gid == NextGid(lines)
    ensures GidsDistinct(lines) ==> GidsDistinct(lines + [Parsed(row)])
    ensures forall p, q :: DistinctBut(lines, p, q) ==> DistinctBut(lines + [Parsed(row)], p, q)
  {
    GeneratedId(lines, GroupId, IsNoGroup);
    forall i | 0 <= i < |lines| && lines[i].Parsed? ensures lines[i].entry.gid != row.gid {
      assert InUse(lines, GroupId, lines[i].entry.gid);
    }
  }

  lemma EnsureGroupDistinct(t: GroupTable, req: GroupReq, opts: Opts, n: nat)
    requires TableOk(t) && req.gid == None && req.name != [] && EnsureGroup(t, req, opts).Ok?
    requires Room(t.lines, NO_GROUP, n + 1)
    ensures var lines := EnsureGroup(t, req, opts).value.table.lines;
            && Room(lines, NO_GROUP, n) && (GidsDistinct(t.lines) ==> GidsDistinct(lines))
            && (forall p, q :: DistinctBut(t.lines, p, q) ==> DistinctBut(lines, p, q))
  {
    EnsureGroupGrows(t, req, opts);
    if EnsureGroup(t, req, opts).value.outcome == Created {
      CreatedIsDistinct(t.lines, NewGroup(req, NextGid(t.lines)));
      HighestAppended(t.lines, NewGroup(req, NextGid(t.lines)));
      GeneratedId(t.lines, GroupId, IsNoGroup);
    }
  }

  lemma {:induction false} EnsureGroupsDistinct(t: GroupTable, reqs: seq<GroupReq>, opts: Opts, n: nat)
    requires TableOk(t) && NamedOnly(reqs) && Room(t.lines, NO_GROUP, |reqs| + n)
    ensures var lines := EnsureGroups(t, reqs, opts).table.lines;
            && Room(lines, NO_GROUP, n) && (GidsDistinct(t.lines) ==> GidsDistinct(lines))
            && (forall p, q :: DistinctBut(t.lines, p, q) ==> DistinctBut(lines, p, q))
    decreases |reqs|
  {
    if reqs != [] {
      var front, req := reqs[..|reqs| - 1], reqs[|reqs| - 1];
      var before := EnsureGroups(t, front, opts);
      EnsureGroupsDistinct(t, front, opts, n + 1);
      LastEnsured(t, reqs, opts);
      assert GroupOrDefaults(req, []) == req;
      if before.refs.Ok? && EnsureGroup(before.table, req, opts).Ok? {
        EnsureGroupDistinct(before.table, req, opts, n);
      }
    }
  }

  /** The gids of rows from one on increase strictly, and are above all gids before. */
  ghost predicate GidsIncrease(before: seq<Line<GroupRow>>, lines: seq<Line<GroupRow>>) {
    && (forall i :: |before| <= i < |lines| ==>
          lines[i].Parsed? && 1000 <= lines[i].entry.gid && lines[i].entry.gid > Highest(before, GroupId, IsNoGroup))
    && (forall i, j :: |before| <= i < j < |lines| ==> lines[i].entry.gid < lines[j].entry.gid)
  }

  /** Where the highest gid gets by generating so many; the one of `nogroup` is left out. */
  function HighestAfter(highest: uint32, created: nat): nat {
    var last := (if highest < 1000 then 999 else highest) + created;
    if created == 0 then highest else if highest < NOBODY <= last then last + 1 else last
  }

  /** As many gids as there are new rows have been generated, which is as it should be until 32 bits are used up. */
  ghost predicate Generated(before: seq<Line<GroupRow>>, lines: seq<Line<GroupRow>>) {
    && before <= lines
    && var last := HighestAfter(Highest(before, GroupId, IsNoGroup), |lines| - |before|);
       if last <= 0xffff_ffff then
         && GidsIncrease(before, lines) && Highest(lines, GroupId, IsNoGroup) == last
         && forall i :: |before| <= i < |lines| ==> lines[i].entry.gid <= last
       else !GidsIncrease(before, lines)
  }

  lemma CreatedGid(before: seq<Line<GroupRow>>, lines: seq<Line<GroupRow>>, row: GroupRow)
    requires Generated(before, lines) && row.gid == NextGid(lines)
    ensures Generated(before, lines + [Parsed(row)])
  {
    var after := lines + [Parsed(row)];
    assert after[..|lines|] == lines;
    assert forall i :: 0 <= i < |lines| ==> after[i] == lines[i];
    assert GidsIncrease(before, after) ==> GidsIncrease(before, lines) && after[|lines|].entry.gid >= 1000;
    assert |after| - |before| == |lines| - |before| + 1;
  }

  lemma GeneratedStep(lines: seq<Line<GroupRow>>, t: GroupTable, req: GroupReq, opts: Opts)
    requires TableOk(t) && Generated(lines, t.lines)
    requires req.gid == None && req.name != [] && EnsureGroup(t, req, opts).Ok?
    ensures Generated(lines, EnsureGroup(t, req, opts).value.table.lines)
  {
    EnsureGroupGrows(t, req, opts);
    if EnsureGroup(t, req, opts).value.outcome == Created {
      CreatedGid(lines, t.lines, NewGroup(req, NextGid(t.lines)));
    }
  }

  lemma {:induction false} GeneratedGids(t: GroupTable, reqs: seq<GroupReq>, opts: Opts)
    requires TableOk(t) && NamedOnly(reqs)
    ensures Generated(t.lines, EnsureGroups(t, reqs, opts).table.lines)
    decreases |reqs|
  {
    if reqs != [] {
      var front, req := reqs[..|reqs| - 1], reqs[|reqs| - 1];
      var before := EnsureGroups(t, front, opts);
      GeneratedGids(t, front, opts);
      LastEnsured(t, reqs, opts);
      assert GroupOrDefaults(req, []) == req;
      if before.refs.Ok? && EnsureGroup(before.table, req, opts).Ok? {
        GeneratedStep(t.lines, before.table, req, opts);
      }
    }
  }

  /** MAIN: the gids that are generated in one go, for groups asked for by name, increase strictly and are above all
      that were there, exactly as long as they fit into 32 bits. */
  lemma GeneratedGidsIncrease(t: GroupTable, reqs: seq<GroupReq>, opts: Opts)
    requires TableOk(t) && NamedOnly(reqs)
    ensures var lines := EnsureGroups(t, reqs, opts).table.lines;
            && t.lines <= lines
            && (GidsIncrease(t.lines, lines) <==>
                  HighestAfter(Highest(t.lines, GroupId, IsNoGroup), |lines| - |t.lines|) <= 0xffff_ffff)
  {
    GeneratedGids(t, reqs, opts);
  }

  // --------------------------------------------------------- does Ensure settle

  /** Rows that differ in nothing but their members. */
  ghost predicate SameButMembers(lines: seq<Line<GroupRow>>, after: seq<Line<GroupRow>>) {
    |after| == |lines| && forall i :: 0 <= i < |lines| ==>
      if lines[i].Parsed?
      then after[i].Parsed? && after[i].entry == lines[i].entry.(userNames := after[i].entry.userNames)
      else after[i] == lines[i]
  }

  lemma {:induction false} IndexBySame<K>(lines: seq<Line<GroupRow>>, after: seq<Line<GroupRow>>, key: GroupRow -> K)
    requires SameButMembers(lines, after)
    requires forall g: GroupRow, names :: key(g.(userNames := names)) == key(g)
    ensures IndexBy(after, key) == IndexBy(lines, key)
  {
    if lines != [] {
      IndexBySame(lines[..|lines| - 1], after[..|after| - 1], key);
    }
  }

  /** A group that was ensured by a name is the last one with the name. */
  lemma EnsuredIsLast(groups: seq<Line<GroupRow>>, req: GroupReq, opts: Opts)
    requires req.name != [] && EnsureGroup(LoadedTable(groups), req, opts).Ok?
    ensures var s := EnsureGroup(LoadedTable(groups), req, opts).value;
            && IsRow(s.table.lines, s.at) && s.table.lines[s.at].entry.name == req.name && req.name in s.table.byName
            && forall q :: s.at < q < |s.table.lines| && s.table.lines[q].Parsed? ==>
                 s.table.lines[q].entry.name != req.name
  {
    var t := LoadedTable(groups);
    var s := EnsureGroup(t, req, opts).value;
    EnsureGroupKeeps(t, req, opts);
    forall q | 0 <= q < |groups| && groups[q].Parsed? && groups[q].entry.name == req.name
      ensures req.name in t.byName && q <= t.byName[req.name]
    {
      IndexByIsLast(groups, GroupName, q);
    }
    if s.outcome == Unchanged {
      IndexByIsLast(groups, GroupName, s.at);
    }
  }

  /** The primary group of a user is found again, with the gid the user was given. */
  lemma PrimaryFound(groups: seq<Line<GroupRow>>, req: UserReq, opts: Opts, u: GroupTable)
    requires req.group != NO_GROUP && EnsureGroup(LoadedTable(groups), GroupOrDefaults(req.group, req.name), opts).Ok?
    requires Grown(EnsureGroup(LoadedTable(groups), GroupOrDefaults(req.group, req.name), opts).value.table, u)
    ensures FindGroup(u.lines, req.group).Some? && GroupFulfils(req.group, FindGroup(u.lines, req.group).value)
    ensures var s := EnsureGroup(LoadedTable(groups), GroupOrDefaults(req.group, req.name), opts).value;
            IsRow(s.table.lines, s.at) && FindGroup(u.lines, req.group).value.gid == s.table.lines[s.at].entry.gid
  {
    var greq := GroupOrDefaults(req.group, req.name);
    var s := EnsureGroup(LoadedTable(groups), greq, opts).value;
    EnsureGroupKeeps(LoadedTable(groups), greq, opts);
    EnsuredIsLast(groups, greq, opts);
    assert u.lines[s.at] == s.table.lines[s.at];
    if req.group.name != [] {
      FindLastIs(u.lines, GroupName, s.at);
    } else {
      LookupIsScan(u.lines, GroupId, req.group.gid.value);
      IndexByIsLast(u.lines, GroupId, s.at);
    }
  }

  lemma UserFound(db: Db, req: UserReq, gid: uint32)
    requires req.name != []
    ensures match LookupUser(db.users, req)
            case None => FindUser(db.users + [Parsed(NewUser(req, gid, NextUid(db.users)))], req)
                         == Some(NewUser(req, gid, NextUid(db.users)))
            case Some(at) => FindUser(db.users[at := Parsed(UpdatedUser(db.users[at].entry, req, gid))], req)
                             == Some(UpdatedUser(db.users[at].entry, req, gid))
  {
    match LookupUser(db.users, req)
    case None =>
      FindLastIs(db.users + [Parsed(NewUser(req, gid, NextUid(db.users)))], UserName, |db.users|);
    case Some(at) =>
      var after := db.users[at := Parsed(UpdatedUser(db.users[at].entry, req, gid))];
      forall j | at < j < |after| && after[j].Parsed? ensures after[j].entry.name != req.name {
        IndexByIsLast(db.users, UserName, j);
      }
      FindLastIs(after, UserName, at);
  }

  /** Every group that lists the user is one that is asked for. */
  ghost predicate AllAskedFor(lines: seq<Line<GroupRow>>, counts: seq<nat>, reqs: seq<GroupReq>) {
    forall i :: 0 <= i < |lines| && i < |counts| && counts[i] > 0 && lines[i].Parsed? ==>
      IsAskedFor(reqs, lines[i].entry)
  }

  lemma MatchIsCount(lines: seq<Line<GroupRow>>, reqs: seq<GroupReq>, user: Bytes)
    ensures GroupsMatch(MemberRows(lines, user), reqs)
       <==> Sum(Counts(lines, user)) == |reqs| && AllAskedFor(lines, Counts(lines, user), reqs)
  {
    var rows, c := MemberRows(lines, user), Counts(lines, user);
    MemberRowsAre(lines, user);
    if GroupsMatch(rows, reqs) {
      forall i | 0 <= i < |lines| && c[i] > 0 && lines[i].Parsed? ensures IsAskedFor(reqs, lines[i].entry) {
        assert lines[i] == Parsed(lines[i].entry);
        assert lines[i].entry in rows;
        var k :| 0 <= k < |rows| && rows[k] == lines[i].entry;
      }
      assert AllAskedFor(lines, c, reqs);
    }
    if |rows| == |reqs| && AllAskedFor(lines, c, reqs) {
      forall k | 0 <= k < |rows| ensures IsAskedFor(reqs, rows[k]) {
        assert rows[k] in rows;
        var i :| 0 <= i < |lines| && lines[i] == Parsed(rows[k]) && c[i] > 0;
        assert IsAskedFor(reqs, lines[i].entry);
      }
      assert GroupsMatch(rows, reqs);
    }
  }

  /** The groups with the primary one as it is asked for, which `Ensure` sees to before the other ones. */
  function PrimaryTable(db: Db, req: UserReq, opts: Opts): (t: GroupTable)
    ensures TableOk(t)
  {
    match EnsureGroup(LoadedTable(db.groups), GroupOrDefaults(req.group, req.name), opts)
    case Ok(s) => EnsureGroupKeeps(LoadedTable(db.groups), GroupOrDefaults(req.group, req.name), opts); s.table
    case Err(_) => LoadedTable(db.groups)
  }

  /** What a caller can check before `Ensure`: nobody but the new user would count as its members, or the wanted
      groups list the existing user as often as there are of them. */
  predicate MembershipsAddUp(db: Db, req: UserReq, opts: Opts) {
    if LookupUser(db.users, req).None? then MemberRows(db.groups, req.name) == []
    else RequiredTotal(PrimaryTable(db, req, opts), req.groups, req.name) == |req.groups|
  }

  /** Once all groups are ensured, the primary one is found as it was asked for, with the gid that the user gets. */
  predicate PrimaryStands(all: Wanted, req: GroupReq) {
    match FindGroup(all.table.lines, req)
    case Some(g) => GroupFulfils(req, g) && g.gid == all.gid
    case None => false
  }

  /** Nobody but a new user counts as its members; or the groups of an existing one, the wanted ones and those in which
      it remains, are asked for and are as many as that. */
  ghost predicate MembershipsSettle(db: Db, req: UserReq, all: Wanted) {
    var lines, c := all.table.lines, FinalCounts(all.table.lines, all.refs, req.name);
    if LookupUser(db.users, req).None?
    then MemberRows(db.groups, req.name) == [] && RefsAskedFor(lines, all.refs, req.groups)
    else Sum(c) == |req.groups| && AllAskedFor(lines, c, req.groups)
  }

  ghost predicate RefsAskedFor(lines: seq<Line<GroupRow>>, refs: seq<nat>, reqs: seq<GroupReq>) {
    forall j :: 0 <= j < |refs| && IsRow(lines, refs[j]) ==> IsAskedFor(reqs, lines[refs[j]].entry)
  }

  /** Whatever later requirements make of a group, the last one that it was found for holds of it. */
  lemma {:induction false} EnsuredAreAskedFor(t: GroupTable, reqs: seq<GroupReq>, opts: Opts)
    requires TableOk(t) && NO_GROUP !in reqs && EnsureGroups(t, reqs, opts).refs.Ok?
    ensures var r := EnsureGroups(t, reqs, opts); RefsAskedFor(r.table.lines, r.refs.value, reqs)
    decreases |reqs|
  {
    if reqs != [] {
      var front, last := reqs[..|reqs| - 1], reqs[|reqs| - 1];
      var before, req := EnsureGroups(t, front, opts), GroupOrDefaults(last, []);
      EnsuredAreAskedFor(t, front, opts);
      EnsureGroupKeeps(before.table, req, opts);
      EnsureGroupDerives(before.table, req, opts);
      var s, refs := EnsureGroup(before.table, req, opts).value, before.refs.value;
      assert GroupFulfils(last, s.table.lines[s.at].entry) by {
        assert last in reqs;
      }
      forall j | 0 <= j < |refs| && refs[j] != s.at ensures IsAskedFor(reqs, s.table.lines[refs[j]].entry) {
        assert IsAskedFor(front, before.table.lines[refs[j]].entry);
        var k :| 0 <= k < |front| && GroupFulfils(front[k], before.table.lines[refs[j]].entry);
        assert reqs[k] == front[k];
      }
    }
  }

  /** The groups as `Ensure` has ensured them before it turns to the user. */
  ghost predicate GroupsEnsured(db: Db, req: UserReq, opts: Opts, s: GroupStep, u: GroupTable, refs: seq<nat>) {
    && EnsureGroup(LoadedTable(db.groups), GroupOrDefaults(req.group, req.name), opts) == Ok(s)
    && TableOk(s.table) && EnsureGroups(s.table, req.groups, opts) == GroupsStep(u, Ok(refs))
  }

  lemma EnsuredGroups(db: Db, req: UserReq, opts: Opts, s: GroupStep, u: GroupTable, refs: seq<nat>)
    requires NamedOnly(req.groups) && GroupsEnsured(db, req, opts, s, u, refs)
    ensures Grown(s.table, u) && RefsNamed(u, req.groups, refs) && AllRows(u.lines, refs)
  {
    NamedGroups(s.table, req.groups, opts);
  }

  /** No other group has the gid that is asked for. */
  predicate GidIsFree(groups: seq<Line<GroupRow>>, req: GroupReq) {
    match LookupGroup(LoadedTable(groups), req)
    case Some(p) =>
      req.gid.Some? ==>
        forall j :: 0 <= j < |groups| && j != p && groups[j].Parsed? ==> groups[j].entry.gid != req.gid.value
    case None => true
  }

  lemma {:induction false} HighestUpdated(lines: seq<Line<GroupRow>>, at: nat, row: GroupRow)
    requires at < |lines|
    ensures Highest(lines[at := Parsed(row)], GroupId, IsNoGroup) <=
            if row.gid > Highest(lines, GroupId, IsNoGroup) then row.gid else Highest(lines, GroupId, IsNoGroup)
    decreases |lines|
  {
    var n: nat := |lines| - 1;
    if at < n {
      HighestUpdated(lines[..n], at, row);
      assert lines[at := Parsed(row)][..n] == lines[..n][at := Parsed(row)];
    } else {
      assert lines[at := Parsed(row)][..n] == lines[..n];
    }
  }

  /** Distinct gids stay distinct exactly if the primary group is not given that of another one. */
  lemma PrimaryGids(groups: seq<Line<GroupRow>>, req: GroupReq, opts: Opts, n: nat)
    requires req.name != [] && EnsureGroup(LoadedTable(groups), req, opts).Ok?
    requires GidsDistinct(groups) && Room(groups, req, n + 1)
    ensures var lines := EnsureGroup(LoadedTable(groups), req, opts).value.table.lines;
            Room(lines, NO_GROUP, n) && (GidsDistinct(lines) <==> GidIsFree(groups, req))
  {
    var t := LoadedTable(groups);
    var s := EnsureGroup(t, req, opts).value;
    match s.outcome
    case Unchanged =>
    case Modified =>
      var row := UpdatedGroup(t.lines[s.at].entry, req);
      HighestUpdated(groups, s.at, row);
      ChangedGids(groups, s.at, row);
    case Created =>
      var row := NewGroup(req, NextGid(groups));
      HighestAppended(groups, row);
      GeneratedId(groups, GroupId, IsNoGroup);
      if req.gid.Some? {
        forall i | 0 <= i < |groups| && groups[i].Parsed? ensures groups[i].entry.gid != row.gid {
          IndexByIsLast(groups, GroupId, i);
        }
      } else {
        CreatedIsDistinct(groups, row);
      }
  }

  lemma ChangedGids(groups: seq<Line<GroupRow>>, at: nat, row: GroupRow)
    requires GidsDistinct(groups) && IsRow(groups, at)
    ensures GidsDistinct(groups[at := Parsed(row)])
       <==> forall j :: 0 <= j < |groups| && j != at && groups[j].Parsed? ==> groups[j].entry.gid != row.gid
  {
    var after := groups[at := Parsed(row)];
    if GidsDistinct(after) {
      forall j | 0 <= j < |groups| && j != at && groups[j].Parsed? ensures groups[j].entry.gid != row.gid {
        assert after[j] == groups[j] && after[at] == Parsed(row);
      }
    }
  }

  lemma EnsuredDistinct(db: Db, req: UserReq, opts: Opts, s: GroupStep, u: GroupTable, refs: seq<nat>)
    requires req.name != [] && NamedOnly(req.groups) && GroupsEnsured(db, req, opts, s, u, refs)
    requires GidsDistinct(db.groups) && Room(db.groups, req.group, |req.groups| + 1)
    requires GidIsFree(db.groups, GroupOrDefaults(req.group, req.name))
    ensures GidsDistinct(u.lines)
  {
    PrimaryGids(db.groups, GroupOrDefaults(req.group, req.name), opts, |req.groups|);
    EnsureGroupsDistinct(s.table, req.groups, opts, 0);
  }

  lemma SameButMembersAsked(lines: seq<Line<GroupRow>>, after: seq<Line<GroupRow>>, c: seq<nat>, reqs: seq<GroupReq>)
    requires SameButMembers(lines, after)
    ensures AllAskedFor(after, c, reqs) <==> AllAskedFor(lines, c, reqs)
  {
    forall i | 0 <= i < |lines| && lines[i].Parsed?
      ensures IsAskedFor(reqs, after[i].entry) <==> IsAskedFor(reqs, lines[i].entry)
    {
      assert forall j :: 0 <= j < |reqs| ==>
               GroupFulfils(reqs[j], after[i].entry) == GroupFulfils(reqs[j], lines[i].entry);
    }
  }

  lemma ModifiedSettle(lines: seq<Line<GroupRow>>, reqs: seq<GroupReq>, refs: seq<nat>, former: Bytes, user: Bytes)
    requires AllRows(lines, refs)
    ensures GroupsMatch(MemberRows(RegroupedGroups(lines, refs, former, user), user), reqs)
       <==> Sum(FinalCounts(lines, refs, user)) == |reqs| && AllAskedFor(lines, FinalCounts(lines, refs, user), reqs)
  {
    var after := RegroupedGroups(lines, refs, former, user);
    RegroupedCounts(lines, refs, former, user);
    MatchIsCount(after, reqs, user);
    SameButMembersAsked(lines, after, FinalCounts(lines, refs, user), reqs);
  }

  lemma CreatedSettle(lines: seq<Line<GroupRow>>, reqs: seq<GroupReq>, refs: seq<nat>, user: Bytes)
    requires AllRows(lines, refs) && |refs| == |reqs|
    ensures GroupsMatch(MemberRows(JoinedGroups(lines, refs, user), user), reqs)
       <==> Sum(Counts(lines, user)) == 0 && RefsAskedFor(lines, refs, reqs)
  {
    var after := JoinedGroups(lines, refs, user);
    JoinedSum(lines, refs, user);
    JoinedCounts(lines, refs, user);
    MatchIsCount(after, reqs, user);
    var c := Counts(after, user);
    SameButMembersAsked(lines, after, c, reqs);
    if Sum(Counts(lines, user)) == 0 {
      SumZero(Counts(lines, user));
      forall i | 0 <= i < |lines| ensures c[i] > 0 && lines[i].Parsed? <==> i in refs {
        OccursIn(refs, i);
      }
      assert AllAskedFor(lines, c, reqs) <==> RefsAskedFor(lines, refs, reqs);
    }
  }

  lemma DerivedCounts(groups: seq<Line<GroupRow>>, lines: seq<Line<GroupRow>>, wanted: seq<nat>, user: Bytes)
    requires Derived(groups, lines, wanted)
    ensures Sum(Counts(lines, user)) == 0 <==> MemberRows(groups, user) == []
  {
    SumZero(Counts(lines, user));
    SumZero(Counts(groups, user));
    MemberRowsAre(groups, user);
    assert forall i :: 0 <= i < |groups| ==> Counts(lines, user)[i] == Counts(groups, user)[i];
  }

  lemma {:induction false} OccursIn(refs: seq<nat>, at: nat)
    ensures Occurs(refs, at) > 0 <==> at in refs
    decreases |refs|
  {
    if refs != [] {
      OccursIn(refs[..|refs| - 1], at);
    }
  }

  lemma FulfilledByParts(lines: seq<Line<GroupRow>>, db: Db, req: UserReq, all: Wanted, user: PasswdRow)
    requires FindUser(db.users, req) == Some(user) && UserFulfils(req, user) && user.gid == all.gid
    requires all.table.lines == lines && SameButMembers(lines, db.groups)
    ensures Fulfilled(db, req)
       <==> PrimaryStands(all, req.group) && GroupsMatch(MemberRows(db.groups, user.name), req.groups)
  {
    SameButMembersFound(lines, db.groups, req.group);
  }

  lemma {:induction false} SameButMembersLast<K>(lines: seq<Line<GroupRow>>, after: seq<Line<GroupRow>>,
                                                 key: GroupRow -> K, k: K)
    requires SameButMembers(lines, after)
    requires forall g: GroupRow, names :: key(g.(userNames := names)) == key(g)
    ensures match FindLast(lines, key, k)
            case None => FindLast(after, key, k) == None
            case Some(g) => FindLast(after, key, k).Some?
                            && FindLast(after, key, k).value == g.(userNames := FindLast(after, key, k).value.userNames)
  {
    if lines != [] {
      SameButMembersLast(lines[1..], after[1..], key, k);
    }
  }

  lemma SameButMembersFound(lines: seq<Line<GroupRow>>, after: seq<Line<GroupRow>>, req: GroupReq)
    requires SameButMembers(lines, after)
    ensures match FindGroup(lines, req)
            case None => FindGroup(after, req) == None
            case Some(g) => FindGroup(after, req).Some?
                            && FindGroup(after, req).value == g.(userNames := FindGroup(after, req).value.userNames)
  {
    SameButMembersLast(lines, after, GroupName, req.name);
    if req.gid.Some? {
      SameButMembersLast(lines, after, GroupId, req.gid.value);
    }
  }

  lemma CreatedFulfils(db: Db, req: UserReq, opts: Opts, today: uint32)
    requires req.name != [] && LookupUser(db.users, req).None? && AllGroups(db, req, opts).Ok?
    ensures var all := AllGroups(db, req, opts).value;
            (Fulfilled(CreatedDb(db, req, all.gid, all.table.lines, all.refs, today), req)
             <==> PrimaryStands(all, req.group) && MembershipsSettle(db, req, all))
  {
    var all := AllGroups(db, req, opts).value;
    UserFound(db, req, all.gid);
    FulfilledByParts(all.table.lines, CreatedDb(db, req, all.gid, all.table.lines, all.refs, today), req, all,
                     NewUser(req, all.gid, NextUid(db.users)));
    AllGroupsDerive(db, req, opts);
    DerivedCounts(db.groups, all.table.lines, WantedAt(db, req, opts), req.name);
    AllGroupsAreRows(db, req, opts);
    CreatedSettle(all.table.lines, req.groups, all.refs, req.name);
  }

  lemma AllGroupsAreRows(db: Db, req: UserReq, opts: Opts)
    requires AllGroups(db, req, opts).Ok?
    ensures var all := AllGroups(db, req, opts).value; AllRows(all.table.lines, all.refs) && |all.refs| == |req.groups|
  {
    EnsureGroupKeeps(LoadedTable(db.groups), GroupOrDefaults(req.group, req.name), opts);
  }

  lemma ModifiedFulfils(db: Db, at: nat, req: UserReq, opts: Opts)
    requires req.name != [] && LookupUser(db.users, req) == Some(at) && IsRow(db.users, at)
    requires AllGroups(db, req, opts).Ok?
    requires var all := AllGroups(db, req, opts).value; ModifiedDb(db, at, req, all.gid, all.table.lines, all.refs).Ok?
    ensures var all := AllGroups(db, req, opts).value;
            (Fulfilled(ModifiedDb(db, at, req, all.gid, all.table.lines, all.refs).value, req)
             <==> PrimaryStands(all, req.group) && MembershipsSettle(db, req, all))
  {
    var all := AllGroups(db, req, opts).value;
    UserFound(db, req, all.gid);
    FulfilledByParts(all.table.lines, ModifiedDb(db, at, req, all.gid, all.table.lines, all.refs).value, req, all,
                     UpdatedUser(db.users[at].entry, req, all.gid));
    AllGroupsAreRows(db, req, opts);
    ModifiedSettle(all.table.lines, req.groups, all.refs, db.users[at].entry.name, req.name);
  }

  /** MAIN: after `Ensure` has created or changed a user, from whatever requirement and whatever files, the
      requirement is fulfilled exactly when it names the user, its primary group stands once all groups are ensured,
      and nobody counts as the new user's members or the groups of the existing one come out right. */
  lemma EnsureSettles(db: Db, req: UserReq, opts: Opts, today: uint32)
    requires req.uid.Some? ==> req.name != []
    requires EnsureDb(db, req, opts, today).Ok? && EnsureDb(db, req, opts, today).value.outcome != Unchanged
    ensures AllGroups(db, req, opts).Ok?
    ensures Fulfilled(EnsureDb(db, req, opts, today).value.db, req)
       <==> req.name != [] && PrimaryStands(AllGroups(db, req, opts).value, req.group)
            && MembershipsSettle(db, req, AllGroups(db, req, opts).value)
  {
    if req.name != [] {
      match LookupUser(db.users, req)
      case None => CreatedFulfils(db, req, opts, today);
      case Some(at) => ModifiedFulfils(db, at, req, opts);
    }
  }

  /** With other groups asked for by name, the primary group stands as soon as one is asked for. */
  lemma NamedPrimaryStands(db: Db, req: UserReq, opts: Opts)
    requires NamedOnly(req.groups) && AllGroups(db, req, opts).Ok?
    ensures PrimaryStands(AllGroups(db, req, opts).value, req.group) <==> req.group != NO_GROUP
  {
    var all := AllGroups(db, req, opts).value;
    var s := EnsureGroup(LoadedTable(db.groups), GroupOrDefaults(req.group, req.name), opts).value;
    EnsureGroupKeeps(LoadedTable(db.groups), GroupOrDefaults(req.group, req.name), opts);
    EnsuredGroups(db, req, opts, s, all.table, all.refs);
    if req.group != NO_GROUP {
      PrimaryFound(db.groups, req, opts, all.table);
    }
  }

  /** And the memberships settle when they add up before, where for an existing user gids are distinct and the one asked
      for is no other group's. */
  lemma NamedMembershipsSettle(db: Db, req: UserReq, opts: Opts)
    requires req.name != [] && NamedOnly(req.groups) && AllGroups(db, req, opts).Ok?
    requires LookupUser(db.users, req).Some? ==> GidsFit(db, req)
    ensures MembershipsSettle(db, req, AllGroups(db, req, opts).value) <==> MembershipsAddUp(db, req, opts)
  {
    var all := AllGroups(db, req, opts).value;
    var s := EnsureGroup(LoadedTable(db.groups), GroupOrDefaults(req.group, req.name), opts).value;
    EnsureGroupKeeps(LoadedTable(db.groups), GroupOrDefaults(req.group, req.name), opts);
    EnsuredGroups(db, req, opts, s, all.table, all.refs);
    EnsuredAreAskedFor(s.table, req.groups, opts);
    if LookupUser(db.users, req).Some? {
      EnsuredDistinct(db, req, opts, s, all.table, all.refs);
      NamedFinalCounts(s.table, req, all);
    }
  }

  /** Gids that are distinct, with enough left, and the primary group is not to get that of another one. */
  ghost predicate GidsFit(db: Db, req: UserReq) {
    && GidsDistinct(db.groups) && Room(db.groups, req.group, |req.groups| + 1)
    && GidIsFree(db.groups, GroupOrDefaults(req.group, req.name))
  }

  lemma NamedFinalCounts(t: GroupTable, req: UserReq, all: Wanted)
    requires TableOk(t) && Grown(t, all.table) && RefsNamed(all.table, req.groups, all.refs)
    requires AllRows(all.table.lines, all.refs)
    requires GidsDistinct(all.table.lines) && RefsAskedFor(all.table.lines, all.refs, req.groups)
    ensures var c := FinalCounts(all.table.lines, all.refs, req.name);
            Sum(c) == RequiredTotal(t, req.groups, req.name) && AllAskedFor(all.table.lines, c, req.groups)
  {
    NobodyRemains(all.table.lines, all.refs, req.name);
    MaskedSum(all.refs, Counts(all.table.lines, req.name));
    RequiredTotalIs(t, all.table, req.groups, all.refs, req.name);
  }

  /** Of two groups with one gid, a user remains in one that is not wanted exactly if the other one is wanted, or comes
      later and lists it too. */
  ghost predicate RemainsInOne(lines: seq<Line<GroupRow>>, refs: seq<nat>, name: Bytes, p: nat, q: nat, i: nat) {
    && IsRow(lines, i) && name in lines[i].entry.userNames && i in {p, q}
    && var other := if i == p then q else p;
       IsRow(lines, other) && (other in refs || (i < other && name in lines[other].entry.userNames))
  }

  /** MAIN: when an existing user's primary group is given the gid of another group: of the groups that are not wanted
      the user remains in one of these two at most, and the memberships settle exactly if what remains makes up the
      number. */
  lemma PrimaryCollides(db: Db, req: UserReq, opts: Opts) returns (p: nat, q: nat)
    requires req.name != [] && NamedOnly(req.groups) && AllGroups(db, req, opts).Ok? && LookupUser(db.users, req).Some?
    requires GidsDistinct(db.groups) && Room(db.groups, req.group, |req.groups| + 1)
    requires !GidIsFree(db.groups, GroupOrDefaults(req.group, req.name))
    ensures var all := AllGroups(db, req, opts).value;
            var lines, refs := all.table.lines, all.refs;
            && p != q && IsRow(lines, p) && IsRow(lines, q) && lines[p].entry.gid == lines[q].entry.gid == all.gid
            && (forall i :: 0 <= i < |lines| && i !in refs ==>
                  (Remains(lines, refs, req.name, i) <==> RemainsInOne(lines, refs, req.name, p, q, i)))
            && var left := RemainingCounts(lines, refs, req.name);
               MembershipsSettle(db, req, all) <==>
                 && RequiredTotal(PrimaryTable(db, req, opts), req.groups, req.name) + Sum(left) == |req.groups|
                 && AllAskedFor(lines, left, req.groups)
  {
    var greq, all := GroupOrDefaults(req.group, req.name), AllGroups(db, req, opts).value;
    var s := EnsureGroup(LoadedTable(db.groups), greq, opts).value;
    EnsureGroupKeeps(LoadedTable(db.groups), greq, opts);
    p, q := CollidingGids(db.groups, greq, opts, |req.groups|);
    EnsuredGroups(db, req, opts, s, all.table, all.refs);
    EnsureGroupsDistinct(s.table, req.groups, opts, 0);
    EnsuredAreAskedFor(s.table, req.groups, opts);
    CollisionRemains(all.table.lines, all.refs, req.name, p, q);
    CollidingTotal(s.table, req, all);
  }

  lemma CollidingGids(groups: seq<Line<GroupRow>>, req: GroupReq, opts: Opts, n: nat) returns (p: nat, q: nat)
    requires req.name != [] && EnsureGroup(LoadedTable(groups), req, opts).Ok?
    requires GidsDistinct(groups) && Room(groups, req, n + 1) && !GidIsFree(groups, req)
    ensures var s := EnsureGroup(LoadedTable(groups), req, opts).value;
            && p == s.at && p != q && DistinctBut(s.table.lines, p, q) && Room(s.table.lines, NO_GROUP, n)
            && s.table.lines[p].entry.gid == s.table.lines[q].entry.gid
  {
    var s := EnsureGroup(LoadedTable(groups), req, opts).value;
    PrimaryGids(groups, req, opts, n);
    p := s.at;
    q :| 0 <= q < |groups| && q != p && groups[q].Parsed? && groups[q].entry.gid == req.gid.value;
    assert s.table.lines == groups[p := s.table.lines[p]];
  }

  lemma CollidingTotal(t: GroupTable, req: UserReq, all: Wanted)
    requires TableOk(t) && Grown(t, all.table) && RefsNamed(all.table, req.groups, all.refs)
    requires AllRows(all.table.lines, all.refs)
    requires RefsAskedFor(all.table.lines, all.refs, req.groups)
    ensures var lines, c := all.table.lines, FinalCounts(all.table.lines, all.refs, req.name);
            var left := RemainingCounts(lines, all.refs, req.name);
            && Sum(c) == RequiredTotal(t, req.groups, req.name) + Sum(left)
            && (AllAskedFor(lines, c, req.groups) <==> AllAskedFor(lines, left, req.groups))
  {
    var lines, refs := all.table.lines, all.refs;
    var c, left := Counts(lines, req.name), RemainingCounts(lines, refs, req.name);
    MaskedSum(refs, c);
    RequiredTotalIs(t, all.table, req.groups, refs, req.name);
    SumPlus(Masked(refs, c), left, FinalCounts(lines, refs, req.name));
    forall i | 0 <= i < |lines| && i in refs ensures lines[i].Parsed? && IsAskedFor(req.groups, lines[i].entry) {
      var j :| 0 <= j < |refs| && refs[j] == i;
    }
  }

  lemma CollisionRemains(lines: seq<Line<GroupRow>>, refs: seq<nat>, name: Bytes, p: nat, q: nat)
    requires AllRows(lines, refs) && DistinctBut(lines, p, q) && p != q && lines[p].entry.gid == lines[q].entry.gid
    ensures forall i :: 0 <= i < |lines| && i !in refs ==>
              (Remains(lines, refs, name, i) <==> RemainsInOne(lines, refs, name, p, q, i))
  {
    forall i | 0 <= i < |lines| && i !in refs && IsRow(lines, i) && name in lines[i].entry.userNames
      ensures Remains(lines, refs, name, i) <==> RemainsInOne(lines, refs, name, p, q, i)
    {
      SharedGid(lines, refs, name, p, q, i);
    }
  }

  lemma SharedGid(lines: seq<Line<GroupRow>>, refs: seq<nat>, name: Bytes, p: nat, q: nat, i: nat)
    requires AllRows(lines, refs) && DistinctBut(lines, p, q) && p != q && IsRow(lines, i) && i !in refs
    requires lines[p].entry.gid == lines[q].entry.gid && name in lines[i].entry.userNames
    ensures Remains(lines, refs, name, i) <==> RemainsInOne(lines, refs, name, p, q, i)
  {
    var gid := lines[i].entry.gid;
    if HasGidOf(lines, refs, gid) {
      var j :| 0 <= j < |refs| && IsRow(lines, refs[j]) && lines[refs[j]].entry.gid == gid;
      assert refs[j] != i && refs[j] in refs;
    }
    if i in {p, q} {
      var other := if i == p then q else p;
      if other in refs {
        var j :| 0 <= j < |refs| && refs[j] == other;
        assert lines[refs[j]].entry.gid == gid;
      }
    }
  }

  /** Distinct wanted groups that list the user at most once add up. */
  lemma {:induction false} DistinctGroupsAddUp(t: GroupTable, reqs: seq<GroupReq>, user: Bytes)
    requires forall i, j :: 0 <= i < j < |reqs| ==> reqs[i].name != reqs[j].name
    requires forall i :: 0 <= i < |reqs| ==> Listings(t, reqs[i].name, user) <= 1
    ensures RequiredTotal(t, reqs, user) == |reqs|
    decreases |reqs|
  {
    if reqs != [] {
      DistinctGroupsAddUp(t, reqs[..|reqs| - 1], user);
    }
  }

  /** A requirement with a user id alone is never fulfilled, whatever the files hold: its defaults name the user,
      but the primary group stays without a name and an id. */
  lemma IdAloneNeverFulfilled(db: Db, req: UserReq)
    requires req.name == [] && req.group == NO_GROUP
    ensures !Fulfilled(db, UserOrDefaults(req))
  {
  }

  // -------------------------------------------------------- from file to file

  ghost predicate StableDb(db: Db, cfg: Config) {
    && AllStable(PasswdCodec(cfg.allowBadName), db.users, cfg.allowBadLine)
    && AllStable(GroupCodec(cfg.allowBadName), db.groups, cfg.allowBadLine)
    && AllStable(ShadowCodec(cfg.allowBadName), db.shadows, cfg.allowBadLine)
  }

  /** MAIN: a database is written and read back, but for its empty lines, exactly when all its lines are stable. */
  lemma SavedIsLoaded(files: Files, db: Db, cfg: Config)
    ensures Save(files, db, cfg).ok && Load(Save(files, db, cfg).files, cfg) == Some(Compact(db)) <==> StableDb(db, cfg)
  {
    PasswdLawful(cfg.allowBadName);
    GroupLawful(cfg.allowBadName);
    ShadowLawful(cfg.allowBadName);
    FileRoundTrip(PasswdCodec(cfg.allowBadName), db.users, cfg.allowBadLine);
    FileRoundTrip(GroupCodec(cfg.allowBadName), db.groups, cfg.allowBadLine);
    FileRoundTrip(ShadowCodec(cfg.allowBadName), db.shadows, cfg.allowBadLine);
  }

  lemma UnchangedIsFulfilled(files: Files, db: Db, cfg: Config, req: UserReq, opts: Opts, today: uint32)
    requires Load(files, cfg) == Some(db)
    ensures EnsureFiles(files, cfg, req, opts, today) == Run(files, Ok(Unchanged)) <==> Fulfilled(db, req)
  {
    var r := EnsureDb(db, req, opts, today);
    assert r.Ok? && r.value.outcome == Unchanged <==> Fulfilled(db, req);
  }

  lemma ChangedIsSaved(files: Files, db: Db, cfg: Config, req: UserReq, opts: Opts, today: uint32)
    requires Load(files, cfg) == Some(db) && EnsureDb(db, req, opts, today).Ok?
    ensures var step := EnsureDb(db, req, opts, today).value;
            var saved := Save(files, step.db, cfg);
            step.outcome != Unchanged ==>
              EnsureFiles(files, cfg, req, opts, today)
                  == Run(saved.files, if saved.ok then Ok(step.outcome) else Err(CannotSave))
  {
  }

  lemma {:induction false} EncodeUpTo<T>(c: Codec<T>, lines: seq<Line<T>>, at: nat)
    requires at < |lines| && EncodeLine(c, lines[at]).None?
    requires forall i :: 0 <= i < at ==> EncodeLine(c, lines[i]).Some?
    ensures EncodeFile(c, lines) == Written(EncodeFile(c, lines[..at]).bytes, false)
  {
    if at > 0 {
      EncodeUpTo(c, lines[1..], at - 1);
      assert lines[..at][1..] == lines[1..][..at - 1];
    }
  }

  lemma {:induction false} EncodeAll<T>(c: Codec<T>, lines: seq<Line<T>>)
    requires forall i :: 0 <= i < |lines| ==> EncodeLine(c, lines[i]).Some?
    ensures EncodeFile(c, lines).ok
  {
    if lines != [] {
      EncodeAll(c, lines[1..]);
    }
  }

  // ------------------------------------------------------ users without a shadow

  /** MAIN: `Ensure` panics exactly if it comes to change an existing user by a name, and there is no shadow row for
      it. */
  lemma EnsurePanics(db: Db, req: UserReq, opts: Opts, today: uint32)
    ensures EnsureDb(db, req, opts, today) == Err(NilShadow) <==>
              && !Fulfilled(db, req) && opts.modifyAllowed && AllGroups(db, req, opts).Ok? && req.name != []
              && LookupUser(db.users, req).Some?
              && var at := LookupUser(db.users, req).value;
                 IsRow(db.users, at) && FindLast(db.shadows, ShadowName, db.users[at].entry.name) == None
  {
    NoOtherPanic(db, req, opts);
    if LookupUser(db.users, req).Some? {
      LookupIsScan(db.shadows, ShadowName, db.users[LookupUser(db.users, req).value].entry.name);
    }
  }

  lemma {:induction false} GroupsDoNotPanic(t: GroupTable, reqs: seq<GroupReq>, opts: Opts)
    requires TableOk(t)
    ensures EnsureGroups(t, reqs, opts).refs != Err(NilShadow)
    decreases |reqs|
  {
    if reqs != [] {
      GroupsDoNotPanic(t, reqs[..|reqs| - 1], opts);
    }
  }

  lemma NoOtherPanic(db: Db, req: UserReq, opts: Opts)
    ensures AllGroups(db, req, opts) != Err(NilShadow)
  {
    var t, greq := LoadedTable(db.groups), GroupOrDefaults(req.group, req.name);
    if EnsureGroup(t, greq, opts).Ok? {
      EnsureGroupKeeps(t, greq, opts);
      GroupsDoNotPanic(EnsureGroup(t, greq, opts).value.table, req.groups, opts);
    }
  }

  /** MAIN: the deletion of a user panics exactly if there is no shadow row for it but there are others. */
  lemma DeletePanics(db: Db, at: nat)
    requires IsRow(db.users, at)
    ensures DeleteDb(db, at) == Err(NilShadow) <==>
              HasRow(db.shadows) && FindLast(db.shadows, ShadowName, db.users[at].entry.name) == None
  {
    LookupIsScan(db.shadows, ShadowName, db.users[at].entry.name);
  }

  // ---------------------------------------------------- what Ensure leaves alone

  lemma {:induction false} WithoutConcat(a: seq<Bytes>, b: seq<Bytes>, name: Bytes)
    ensures Without(a + b, name) == Without(a, name) + Without(b, name)
  {
    if a == [] {
      assert a + b == b;
    } else {
      WithoutConcat(a[1..], b, name);
      assert (a + b)[0] == a[0] && (a + b)[1..] == a[1..] + b;
      var head: seq<Bytes> := if a[0] == name then [] else [a[0]];
      var x, y := Without(a[1..], name), Without(b, name);
      assert head + (x + y) == (head + x) + y;
    }
  }

  lemma {:induction false} WithoutTwice(names: seq<Bytes>, a: Bytes, b: Bytes)
    ensures Without(Without(names, a), b) == Without(Without(names, b), a)
    ensures Without(Without(names, a), a) == Without(names, a)
  {
    if names != [] {
      WithoutTwice(names[1..], a, b);
      var head := [names[0]];
      WithoutConcat(if names[0] == a then [] else head, Without(names[1..], a), b);
      WithoutConcat(if names[0] == b then [] else head, Without(names[1..], b), a);
      WithoutConcat(if names[0] == a then [] else head, Without(names[1..], a), a);
    }
  }

  lemma {:induction false} WithoutTimes(name: Bytes, n: nat)
    ensures Without(Times(name, n), name) == []
  {
    if n > 0 {
      WithoutTimes(name, n - 1);
      assert Times(name, n)[1..] == Times(name, n - 1);
    }
  }

  /** The members of a group other than two of them, in their order. */
  function Others(names: seq<Bytes>, a: Bytes, b: Bytes): seq<Bytes> { Without(Without(names, a), b) }

  lemma RegroupingKeepsOthers(lines: seq<Line<GroupRow>>, refs: seq<nat>, former: Bytes, name: Bytes, at: nat)
    requires IsRow(lines, at)
    ensures Others(RegroupedMembers(lines, refs, former, name, at), former, name)
            == Others(lines[at].entry.userNames, former, name)
  {
    var names := lines[at].entry.userNames;
    var members := if former == name then names else Without(names, former);
    WithoutTwice(names, former, name);
    WithoutTwice(members, name, former);
    WithoutTwice(Without(names, former), name, name);
    WithoutConcat(members, [name], former);
    WithoutConcat(Without(members, former), Without([name], former), name);
    WithoutConcat(members, [name], name);
    assert Without(Without([name], former), name) == [];
  }

  lemma JoiningKeepsOthers(names: seq<Bytes>, name: Bytes, n: nat)
    ensures Others(names + Times(name, n), name, name) == Others(names, name, name)
  {
    WithoutConcat(names, Times(name, n), name);
    WithoutTimes(name, n);
    assert Without(names + Times(name, n), name) == Without(names, name);
  }

  /** Every line is kept in its place; rows change in nothing but which of two users they list, and where. */
  ghost predicate GroupsKept(lines: seq<Line<GroupRow>>, after: seq<Line<GroupRow>>, a: Bytes, b: Bytes) {
    && |lines| <= |after|
    && SameButMembers(lines, after[..|lines|])
    && (forall i :: 0 <= i < |after| && after[i].Parsed? ==>
          Others(after[i].entry.userNames, a, b)
          == if i < |lines| && lines[i].Parsed? then Others(lines[i].entry.userNames, a, b) else [])
  }

  lemma RegroupedKept(t: GroupTable, u: GroupTable, refs: seq<nat>, former: Bytes, name: Bytes)
    requires Grown(t, u)
    ensures GroupsKept(t.lines, RegroupedGroups(u.lines, refs, former, name), former, name)
  {
    var after := RegroupedGroups(u.lines, refs, former, name);
    forall i | 0 <= i < |after| && after[i].Parsed?
      ensures Others(after[i].entry.userNames, former, name)
              == if i < |t.lines| && t.lines[i].Parsed? then Others(t.lines[i].entry.userNames, former, name) else []
    {
      RegroupingKeepsOthers(u.lines, refs, former, name, i);
      assert i < |t.lines| ==> u.lines[i] == t.lines[i];
    }
  }

  lemma JoinedKept(t: GroupTable, u: GroupTable, refs: seq<nat>, name: Bytes)
    requires Grown(t, u)
    ensures GroupsKept(t.lines, JoinedGroups(u.lines, refs, name), name, name)
  {
    var after := JoinedGroups(u.lines, refs, name);
    forall i | 0 <= i < |after| && after[i].Parsed?
      ensures Others(after[i].entry.userNames, name, name)
              == if i < |t.lines| && t.lines[i].Parsed? then Others(t.lines[i].entry.userNames, name, name) else []
    {
      JoiningKeepsOthers(u.lines[i].entry.userNames, name, Occurs(refs, i));
      assert i < |t.lines| ==> u.lines[i] == t.lines[i];
    }
  }

  ghost predicate CreatedKeeps(db: Db, groups: seq<Line<GroupRow>>, after: Db, name: Bytes) {
    && |after.users| == |db.users| + 1 && db.users <= after.users
    && |after.shadows| == |db.shadows| + 1 && db.shadows <= after.shadows
    && GroupsKept(groups, after.groups, name, name)
  }

  ghost predicate ModifiedKeeps(db: Db, groups: seq<Line<GroupRow>>, after: Db, at: nat, name: Bytes) {
    && IsRow(db.users, at) && IsRow(after.users, at) && after.users == db.users[at := after.users[at]]
    && after.users[at].entry.password == db.users[at].entry.password
    && var former := db.users[at].entry.name;
       && GroupsKept(groups, after.groups, former, name)
       && exists s: nat :: IsRow(db.shadows, s) && db.shadows[s].entry.name == former
            && after.shadows == db.shadows[s := Parsed(db.shadows[s].entry.(name := name))]
  }

  lemma ModifiedDbKeeps(db: Db, at: nat, req: UserReq, gid: uint32, t: GroupTable, u: GroupTable, refs: seq<nat>)
    requires IsRow(db.users, at) && req.name != [] && Grown(t, u)
    requires ModifiedDb(db, at, req, gid, u.lines, refs).Ok?
    ensures ModifiedKeeps(db, t.lines, ModifiedDb(db, at, req, gid, u.lines, refs).value, at, req.name)
  {
    var former := db.users[at].entry.name;
    RegroupedKept(t, u, refs, former, req.name);
    assert IsRow(db.shadows, IndexBy(db.shadows, ShadowName)[former]);
  }

  lemma NewKeepsOthers(db: Db, req: UserReq, opts: Opts, today: uint32)
    requires req.name != [] && NamedOnly(req.groups) && AllGroups(db, req, opts).Ok?
    ensures var all := AllGroups(db, req, opts).value;
            CreatedKeeps(db, PrimaryTable(db, req, opts).lines,
                         CreatedDb(db, req, all.gid, all.table.lines, all.refs, today), req.name)
  {
    var all := AllGroups(db, req, opts).value;
    PrimaryGrows(db, req, opts);
    JoinedKept(PrimaryTable(db, req, opts), all.table, all.refs, req.name);
  }

  lemma ExistingKeepsOthers(db: Db, at: nat, req: UserReq, opts: Opts)
    requires req.name != [] && NamedOnly(req.groups) && IsRow(db.users, at) && AllGroups(db, req, opts).Ok?
    requires var all := AllGroups(db, req, opts).value; ModifiedDb(db, at, req, all.gid, all.table.lines, all.refs).Ok?
    ensures var all := AllGroups(db, req, opts).value;
            ModifiedKeeps(db, PrimaryTable(db, req, opts).lines,
                          ModifiedDb(db, at, req, all.gid, all.table.lines, all.refs).value, at, req.name)
  {
    var all := AllGroups(db, req, opts).value;
    PrimaryGrows(db, req, opts);
    ModifiedDbKeeps(db, at, req, all.gid, PrimaryTable(db, req, opts), all.table, all.refs);
  }

  lemma PrimaryGrows(db: Db, req: UserReq, opts: Opts)
    requires NamedOnly(req.groups) && AllGroups(db, req, opts).Ok?
    ensures Grown(PrimaryTable(db, req, opts), AllGroups(db, req, opts).value.table)
    ensures Derived(db.groups, PrimaryTable(db, req, opts).lines, [WantedAt(db, req, opts)[0]])
  {
    var all, greq := AllGroups(db, req, opts).value, GroupOrDefaults(req.group, req.name);
    var s := EnsureGroup(LoadedTable(db.groups), greq, opts).value;
    EnsureGroupKeeps(LoadedTable(db.groups), greq, opts);
    EnsureGroupDerives(LoadedTable(db.groups), greq, opts);
    EnsuredGroups(db, req, opts, s, all.table, all.refs);
  }

  /** MAIN: `Ensure`, with the other groups asked for by name, leaves every line in its place and untouched but for
      the user's own passwd and shadow rows, its memberships and the primary group; of that one it leaves the password
      and the members. New lines come last. */
  lemma EnsureKeepsOthers(db: Db, req: UserReq, opts: Opts, today: uint32)
    requires req.name != [] && NamedOnly(req.groups)
    requires EnsureDb(db, req, opts, today).Ok? && EnsureDb(db, req, opts, today).value.outcome != Unchanged
    ensures AllGroups(db, req, opts).Ok?
    ensures var groups, after := PrimaryTable(db, req, opts).lines, EnsureDb(db, req, opts, today).value.db;
            && Derived(db.groups, groups, [WantedAt(db, req, opts)[0]])
            && match LookupUser(db.users, req)
               case None => CreatedKeeps(db, groups, after, req.name)
               case Some(at) => ModifiedKeeps(db, groups, after, at, req.name)
  {
    PrimaryGrows(db, req, opts);
    match LookupUser(db.users, req)
    case None => NewKeepsOthers(db, req, opts, today);
    case Some(at) => ExistingKeepsOthers(db, at, req, opts);
  }

  // ------------------------------------------- what no requirement can change

  /** What ensuring groups, by whatever requirements, makes of the lines: passwords and members stay, new rows have a
      locked password and no members, and only rows at some positions may have got another name or gid. */
  ghost predicate Derived(before: seq<Line<GroupRow>>, after: seq<Line<GroupRow>>, wanted: seq<nat>) {
    && |before| <= |after|
    && forall i :: 0 <= i < |after| ==>
         if i >= |before| then after[i].Parsed? && after[i].entry.password == "x" && after[i].entry.userNames == []
         else if i !in wanted || before[i].Raw? then after[i] == before[i]
         else after[i].Parsed? && after[i].entry.password == before[i].entry.password
              && after[i].entry.userNames == before[i].entry.userNames
  }

  lemma EnsureGroupDerives(t: GroupTable, req: GroupReq, opts: Opts)
    requires TableOk(t) && EnsureGroup(t, req, opts).Ok?
    ensures var s := EnsureGroup(t, req, opts).value; Derived(t.lines, s.table.lines, [s.at])
  {
  }

  lemma DerivedTwice(a: seq<Line<GroupRow>>, b: seq<Line<GroupRow>>, c: seq<Line<GroupRow>>, v: seq<nat>, w: seq<nat>)
    requires Derived(a, b, v) && Derived(b, c, w)
    ensures Derived(a, c, v + w)
  {
    forall i | 0 <= i < |a| && i !in v + w ensures c[i] == a[i] {
      assert i !in v && i !in w;
    }
  }

  lemma {:induction false} EnsureGroupsDerive(t: GroupTable, reqs: seq<GroupReq>, opts: Opts)
    requires TableOk(t) && EnsureGroups(t, reqs, opts).refs.Ok?
    ensures var r := EnsureGroups(t, reqs, opts); Derived(t.lines, r.table.lines, r.refs.value)
    decreases |reqs|
  {
    if reqs != [] {
      var front, req := reqs[..|reqs| - 1], GroupOrDefaults(reqs[|reqs| - 1], []);
      var before := EnsureGroups(t, front, opts);
      EnsureGroupsDerive(t, front, opts);
      EnsureGroupDerives(before.table, req, opts);
      var s := EnsureGroup(before.table, req, opts).value;
      DerivedTwice(t.lines, before.table.lines, s.table.lines, before.refs.value, [s.at]);
    }
  }

  /** Where the groups are that a requirement asks for, the primary one first. */
  function WantedAt(db: Db, req: UserReq, opts: Opts): seq<nat>
    requires AllGroups(db, req, opts).Ok?
  {
    [EnsureGroup(LoadedTable(db.groups), GroupOrDefaults(req.group, req.name), opts).value.at]
        + AllGroups(db, req, opts).value.refs
  }

  lemma AllGroupsDerive(db: Db, req: UserReq, opts: Opts)
    requires AllGroups(db, req, opts).Ok?
    ensures Derived(db.groups, AllGroups(db, req, opts).value.table.lines, WantedAt(db, req, opts))
  {
    var t, greq := LoadedTable(db.groups), GroupOrDefaults(req.group, req.name);
    EnsureGroupKeeps(t, greq, opts);
    EnsureGroupDerives(t, greq, opts);
    var s := EnsureGroup(t, greq, opts).value;
    EnsureGroupsDerive(s.table, req.groups, opts);
    DerivedTwice(t.lines, s.table.lines, EnsureGroups(s.table, req.groups, opts).table.lines, [s.at],
                 EnsureGroups(s.table, req.groups, opts).refs.value);
  }

  /** Lines stay in their place; rows keep their password and their members but for two users, and those that were
      not asked for keep their name and gid. */
  ghost predicate RestKept(before: seq<Line<GroupRow>>, after: seq<Line<GroupRow>>, a: Bytes, b: Bytes,
                           wanted: seq<nat>) {
    && |before| <= |after|
    && forall i :: 0 <= i < |after| ==>
         if i < |before| && before[i].Raw? then after[i] == before[i]
         else && after[i].Parsed?
              && after[i].entry.password == (if i < |before| then before[i].entry.password else "x")
              && Others(after[i].entry.userNames, a, b)
                 == (if i < |before| then Others(before[i].entry.userNames, a, b) else [])
              && (i < |before| && i !in wanted ==>
                    after[i].entry.name == before[i].entry.name && after[i].entry.gid == before[i].entry.gid)
  }

  lemma RegroupedRest(before: seq<Line<GroupRow>>, lines: seq<Line<GroupRow>>, refs: seq<nat>, former: Bytes,
                      name: Bytes, wanted: seq<nat>)
    requires Derived(before, lines, wanted)
    ensures RestKept(before, RegroupedGroups(lines, refs, former, name), former, name, wanted)
  {
    var after := RegroupedGroups(lines, refs, former, name);
    forall i | 0 <= i < |after| && after[i].Parsed?
      ensures Others(after[i].entry.userNames, former, name) == Others(lines[i].entry.userNames, former, name)
    {
      RegroupingKeepsOthers(lines, refs, former, name, i);
    }
  }

  lemma JoinedRest(before: seq<Line<GroupRow>>, lines: seq<Line<GroupRow>>, refs: seq<nat>, name: Bytes,
                   wanted: seq<nat>)
    requires Derived(before, lines, wanted)
    ensures RestKept(before, JoinedGroups(lines, refs, name), name, name, wanted)
  {
    var after := JoinedGroups(lines, refs, name);
    forall i | 0 <= i < |after| && after[i].Parsed?
      ensures Others(after[i].entry.userNames, name, name) == Others(lines[i].entry.userNames, name, name)
    {
      JoiningKeepsOthers(lines[i].entry.userNames, name, Occurs(refs, i));
    }
  }

  /** The shadow rows but for the name of the last one of a user. */
  ghost predicate ShadowsKept(before: seq<Line<ShadowRow>>, after: seq<Line<ShadowRow>>, former: Bytes, name: Bytes) {
    || after == before
    || (exists s: nat :: IsRow(before, s) && before[s].entry.name == former
                         && after == before[s := Parsed(before[s].entry.(name := name))])
  }

  /** A new user is in the last lines of its files; all else is kept. */
  ghost predicate KeptForNew(db: Db, after: Db, wanted: seq<nat>) {
    var n := |db.users|;
    && IsRow(after.users, n) && after.users == db.users + [after.users[n]]
    && |after.shadows| == |db.shadows| + 1 && db.shadows <= after.shadows
    && RestKept(db.groups, after.groups, after.users[n].entry.name, after.users[n].entry.name, wanted)
  }

  /** An existing user keeps its place and its password; all else is kept. */
  ghost predicate KeptForExisting(db: Db, after: Db, at: nat, wanted: seq<nat>) {
    && IsRow(db.users, at) && IsRow(after.users, at) && after.users == db.users[at := after.users[at]]
    && var former, user := db.users[at].entry, after.users[at].entry;
       && user.password == former.password
       && ShadowsKept(db.shadows, after.shadows, former.name, user.name)
       && RestKept(db.groups, after.groups, former.name, user.name, wanted)
  }

  lemma NewKeepsRest(db: Db, req: UserReq, opts: Opts, today: uint32)
    requires AllGroups(db, req, opts).Ok?
    ensures var all := AllGroups(db, req, opts).value;
            KeptForNew(db, CreatedDb(db, req, all.gid, all.table.lines, all.refs, today), WantedAt(db, req, opts))
  {
    var all := AllGroups(db, req, opts).value;
    AllGroupsDerive(db, req, opts);
    JoinedRest(db.groups, all.table.lines, all.refs, NewUser(req, all.gid, NextUid(db.users)).name,
               WantedAt(db, req, opts));
  }

  lemma ExistingKeepsRest(db: Db, at: nat, req: UserReq, opts: Opts)
    requires IsRow(db.users, at) && AllGroups(db, req, opts).Ok?
    requires var all := AllGroups(db, req, opts).value; ModifiedDb(db, at, req, all.gid, all.table.lines, all.refs).Ok?
    ensures var all := AllGroups(db, req, opts).value;
            KeptForExisting(db, ModifiedDb(db, at, req, all.gid, all.table.lines, all.refs).value, at,
                            WantedAt(db, req, opts))
  {
    var all := AllGroups(db, req, opts).value;
    AllGroupsDerive(db, req, opts);
    var former, user := db.users[at].entry, UpdatedUser(db.users[at].entry, req, all.gid);
    RegroupedRest(db.groups, all.table.lines, all.refs, former.name, user.name, WantedAt(db, req, opts));
    LastShadow(db, at, req, all);
  }

  /** MAIN: whatever groups are asked for and however they are changed, `Ensure` leaves every line in its place, all
      other users' rows as they are, and the passwords and other members of all groups; only groups that were asked
      for can get another name or gid. */
  lemma EnsureKeepsRest(db: Db, req: UserReq, opts: Opts, today: uint32)
    requires EnsureDb(db, req, opts, today).Ok? && EnsureDb(db, req, opts, today).value.outcome != Unchanged
    ensures AllGroups(db, req, opts).Ok?
    ensures var after, wanted := EnsureDb(db, req, opts, today).value.db, WantedAt(db, req, opts);
            match LookupUser(db.users, req)
            case None => KeptForNew(db, after, wanted)
            case Some(at) => KeptForExisting(db, after, at, wanted)
  {
    match LookupUser(db.users, req)
    case None => NewKeepsRest(db, req, opts, today);
    case Some(at) => ExistingKeepsRest(db, at, req, opts);
  }

  lemma LastShadow(db: Db, at: nat, req: UserReq, all: Wanted)
    requires IsRow(db.users, at) && ModifiedDb(db, at, req, all.gid, all.table.lines, all.refs).Ok?
    ensures ShadowsKept(db.shadows, ModifiedDb(db, at, req, all.gid, all.table.lines, all.refs).value.shadows,
                        db.users[at].entry.name, UpdatedUser(db.users[at].entry, req, all.gid).name)
  {
    var former := db.users[at].entry.name;
    if former in IndexBy(db.shadows, ShadowName) {
      assert IsRow(db.shadows, IndexBy(db.shadows, ShadowName)[former]);
    }
  }

  /** MAIN: a created user has the id that was asked for, or one that nobody has, and a shadow row that does not let
      it log in with a password. */
  lemma CreatedUserIsNew(db: Db, req: UserReq, opts: Opts, today: uint32)
    requires req.name != [] && EnsureDb(db, req, opts, today).Ok?
    requires EnsureDb(db, req, opts, today).value.outcome == Created
    ensures var after, n, m := EnsureDb(db, req, opts, today).value.db, |db.users|, |db.shadows|;
            && FindLast(db.users, UserName, req.name) == None
            && IsRow(after.users, n) && after.users[n].entry.name == req.name
            && IsRow(after.shadows, m) && after.shadows[m].entry.name == req.name
            && after.shadows[m].entry.password == "*"
            && (match req.uid
                case Some(uid) => after.users[n].entry.uid == uid && FindLast(db.users, UserId, uid) == None
                case None => Highest(db.users, UserId, IsNobody) < 0xffff_ffff ==>
                               after.users[n].entry.uid >= 1000 && !InUse(db.users, UserId, after.users[n].entry.uid))
  {
    LookupUserIsScan(db.users, req);
    LookupIsScan(db.users, UserName, req.name);
    GeneratedId(db.users, UserId, IsNobody);
  }

  // --------------------------------------------------------- deleting a user

  lemma {:induction false} DroppedIs<T>(lines: seq<Line<T>>, gone: T -> bool)
    ensures forall l :: l in Dropped(lines, gone) <==> l in lines && !(l.Parsed? && gone(l.entry))
  {
    if lines != [] {
      DroppedIs(lines[1..], gone);
      assert forall l :: l in lines <==> l == lines[0] || l in lines[1..];
    }
  }

  lemma {:induction false} FindLastIn<T, K>(lines: seq<Line<T>>, key: T -> K, k: K)
    ensures FindLast(lines, key, k) == None <==> forall t :: Parsed(t) in lines ==> key(t) != k
  {
    if lines != [] {
      FindLastIn(lines[1..], key, k);
      assert forall l :: l in lines <==> l == lines[0] || l in lines[1..];
    }
  }

  lemma {:induction false} FindLastDropped<T, K>(lines: seq<Line<T>>, gone: T -> bool, key: T -> K, k: K)
    requires forall t :: Parsed(t) in lines && key(t) == k ==> !gone(t)
    ensures FindLast(Dropped(lines, gone), key, k) == FindLast(lines, key, k)
  {
    if lines != [] {
      assert forall l :: l in lines <==> l == lines[0] || l in lines[1..];
      FindLastDropped(lines[1..], gone, key, k);
      var rest := Dropped(lines[1..], gone);
      if lines[0].Parsed? && gone(lines[0].entry) {
        assert Dropped(lines, gone) == rest;
      } else {
        assert Dropped(lines, gone)[1..] == rest;
      }
    }
  }

  /** MAIN: after a deletion the user is not found by its id, has no shadow line and is in no group. It is not found
      by its name exactly when no other row carries the name with another id. Every other id is found as before,
      and so is every other name that no deleted row carries. */
  lemma DeleteForgets(db: Db, at: nat)
    requires IsRow(db.users, at) && DeleteDb(db, at).Ok?
    ensures var after, row := DeleteDb(db, at).value, db.users[at].entry;
            && FindLast(after.users, UserId, row.uid) == None
            && FindLast(after.shadows, ShadowName, row.name) == None
            && MemberRows(after.groups, row.name) == []
            && (FindLast(after.users, UserName, row.name) == None
                <==> forall u: PasswdRow :: Parsed(u) in db.users && u.name == row.name ==> u.uid == row.uid)
            && (forall uid :: uid != row.uid ==> FindLast(after.users, UserId, uid) == FindLast(db.users, UserId, uid))
            && (forall name :: (forall u: PasswdRow :: Parsed(u) in db.users && u.name == name ==> u.uid != row.uid) ==>
                  FindLast(after.users, UserName, name) == FindLast(db.users, UserName, name))
            && (forall name :: name != row.name ==>
                  FindLast(after.shadows, ShadowName, name) == FindLast(db.shadows, ShadowName, name))
  {
    var row := db.users[at].entry;
    var goneUser, goneShadow := SameUid(row), SameName(row);
    DroppedIs(db.users, goneUser);
    DroppedIs(db.shadows, goneShadow);
    FindLastIn(Dropped(db.users, goneUser), UserId, row.uid);
    FindLastIn(Dropped(db.users, goneUser), UserName, row.name);
    FindLastIn(Dropped(db.shadows, goneShadow), ShadowName, row.name);
    LeftCounts(db.groups, row.name);
    forall uid | uid != row.uid
      ensures FindLast(Dropped(db.users, goneUser), UserId, uid) == FindLast(db.users, UserId, uid)
    {
      FindLastDropped(db.users, goneUser, UserId, uid);
    }
    forall name | forall u: PasswdRow :: Parsed(u) in db.users && u.name == name ==> u.uid != row.uid
      ensures FindLast(Dropped(db.users, goneUser), UserName, name) == FindLast(db.users, UserName, name)
    {
      FindLastDropped(db.users, goneUser, UserName, name);
    }
    forall name | name != row.name
      ensures FindLast(Dropped(db.shadows, goneShadow), ShadowName, name) == FindLast(db.shadows, ShadowName, name)
    {
      FindLastDropped(db.shadows, goneShadow, ShadowName, name);
    }
  }

  lemma LeftCounts(groups: seq<Line<GroupRow>>, name: Bytes)
    ensures MemberRows(LeftGroups(groups, name), name) == []
  {
    var after := LeftGroups(groups, name);
    forall i | 0 <= i < |groups| ensures Counts(after, name)[i] == 0 {
      if groups[i].Parsed? {
        CountWithout(groups[i].entry.userNames, name, name);
      }
    }
    SumZero(Counts(after, name));
    MemberRowsAre(after, name);
  }

  /** The lines at increasing positions; those at all other positions are gone. */
  ghost predicate KeptInOrder<T>(lines: seq<Line<T>>, after: seq<Line<T>>, gone: T -> bool, at: seq<nat>) {
    && |at| == |after| && (forall j, k :: 0 <= j < k < |at| ==> at[j] < at[k])
    && (forall j :: 0 <= j < |at| ==>
          at[j] < |lines| && after[j] == lines[at[j]] && !(after[j].Parsed? && gone(after[j].entry)))
    && (forall i :: 0 <= i < |lines| && i !in at ==> lines[i].Parsed? && gone(lines[i].entry))
  }

  lemma {:induction false} DroppedAppend<T>(a: seq<Line<T>>, l: Line<T>, gone: T -> bool)
    ensures Dropped(a + [l], gone) == Dropped(a, gone) + if l.Parsed? && gone(l.entry) then [] else [l]
  {
    if a == [] {
      assert a + [l] == [l];
    } else {
      DroppedAppend(a[1..], l, gone);
      assert (a + [l])[1..] == a[1..] + [l];
    }
  }

  lemma {:induction false} DroppedInOrder<T>(lines: seq<Line<T>>, gone: T -> bool) returns (at: seq<nat>)
    ensures KeptInOrder(lines, Dropped(lines, gone), gone, at)
    decreases |lines|
  {
    if lines == [] {
      return [];
    }
    var front, last := lines[..|lines| - 1], lines[|lines| - 1];
    at := DroppedInOrder(front, gone);
    assert lines == front + [last];
    DroppedAppend(front, last, gone);
    if !(last.Parsed? && gone(last.entry)) {
      at := at + [|front|];
    }
  }

  /** MAIN: a deletion keeps all other lines in their order, and the other members of every group in theirs. */
  lemma DeleteKeepsOthers(db: Db, at: nat) returns (users: seq<nat>, shadows: seq<nat>)
    requires IsRow(db.users, at) && DeleteDb(db, at).Ok?
    ensures var after, row := DeleteDb(db, at).value, db.users[at].entry;
            && KeptInOrder(db.users, after.users, SameUid(row), users)
            && KeptInOrder(db.shadows, after.shadows, SameName(row), shadows)
            && GroupsKept(db.groups, after.groups, row.name, row.name) && |after.groups| == |db.groups|
  {
    var row := db.users[at].entry;
    users := DroppedInOrder(db.users, SameUid(row));
    shadows := DroppedInOrder(db.shadows, SameName(row));
    forall i | 0 <= i < |db.groups| && db.groups[i].Parsed?
      ensures Others(Without(db.groups[i].entry.userNames, row.name), row.name, row.name)
              == Others(db.groups[i].entry.userNames, row.name, row.name)
    {
      WithoutTwice(db.groups[i].entry.userNames, row.name, row.name);
    }
  }
}
