/** The five indexes over the entries: what a reload makes of them, and how they follow the edits. */
module Indexing {
  import opened Bytes
  import opened ColonCodec
  import opened UnixRows
  import opened UserDb
  import opened UserDbLaws
  import opened Entries
  import opened Regrouping

  /** A user as the indexes hold it: its two entries, the second one only if there is a shadow line. */
  datatype UserRef = UserRef(passwd: Entry<PasswdRow>, shadow: Option<Entry<ShadowRow>>)

  // ------------------------------------------------------- the indexes and a reload

  /** The entry lists and the rows they hold at some moment. */
  datatype Tables = Tables(users: Lines<PasswdRow>, groups: Lines<GroupRow>, shadows: Lines<ShadowRow>, db: Db)

  datatype Indexes = Indexes(nameToUser: map<Bytes, UserRef>, idToUser: map<uint32, UserRef>,
                             nameToGroup: map<Bytes, Entry<GroupRow>>, idToGroup: map<uint32, Entry<GroupRow>>,
                             usernameToGroups: map<Bytes, seq<Entry<GroupRow>>>)

  ghost function PasswdOf<K>(m: map<K, UserRef>): map<K, Entry<PasswdRow>> {
    map k | k in m :: m[k].passwd
  }

  /** An index of users by a key: the last passwd entry with each key, with the last shadow entry of its name. */
  ghost predicate IsUserIndex<K(!new)>(m: map<K, UserRef>, users: Lines<PasswdRow>, rows: seq<Line<PasswdRow>>,
                                       key: PasswdRow -> K, byShadow: Bytes -> Option<Entry<ShadowRow>>)
  {
    IsIndex(PasswdOf(m), users, rows, key) && HasShadows(m, rows, key, byShadow)
  }

  ghost predicate HasShadows<K(!new)>(m: map<K, UserRef>, rows: seq<Line<PasswdRow>>, key: PasswdRow -> K,
                                      byShadow: Bytes -> Option<Entry<ShadowRow>>)
  {
    forall k :: k in m ==> k in IndexBy(rows, key) && m[k].shadow == byShadow(rows[IndexBy(rows, key)[k]].entry.name)
  }

  lemma UserIndexAppend<K(!new)>(m: map<K, UserRef>, users: Lines<PasswdRow>, rows: seq<Line<PasswdRow>>,
                                 key: PasswdRow -> K, byShadow: Bytes -> Option<Entry<ShadowRow>>,
                                 line: Line<Entry<PasswdRow>>, row: Line<PasswdRow>)
    requires IsUserIndex(m, users, rows, key, byShadow) && (line.Parsed? <==> row.Parsed?)
    ensures var after := if line.Parsed? then m[key(row.entry) := UserRef(line.entry, byShadow(row.entry.name))] else m;
            IsUserIndex(after, users + [line], rows + [row], key, byShadow)
  {
    IsIndexAppend(PasswdOf(m), users, rows, line, row, key);
    var after := if line.Parsed? then m[key(row.entry) := UserRef(line.entry, byShadow(row.entry.name))] else m;
    assert PasswdOf(after) == if line.Parsed? then PasswdOf(m)[key(row.entry) := line.entry] else PasswdOf(m);
    assert (rows + [row])[..|rows|] == rows;
  }

  lemma UserIndexBySame<K(!new)>(m: map<K, UserRef>, users: Lines<PasswdRow>, rows: seq<Line<PasswdRow>>,
                                 key: PasswdRow -> K,
                                 f: Bytes -> Option<Entry<ShadowRow>>, g: Bytes -> Option<Entry<ShadowRow>>)
    requires IsUserIndex(m, users, rows, key, f) && forall name :: f(name) == g(name)
    ensures IsUserIndex(m, users, rows, key, g)
  {
  }

  ghost function ShadowBy(shadows: Lines<ShadowRow>, rows: seq<Line<ShadowRow>>): Bytes -> Option<Entry<ShadowRow>>
    requires Matches(shadows, rows)
  {
    name => LastEntry(shadows, rows, ShadowName, name)
  }

  ghost predicate GroupsSynced(ix: Indexes, t: Tables) {
    && IsIndex(ix.nameToGroup, t.groups, t.db.groups, GroupName)
    && IsIndex(ix.idToGroup, t.groups, t.db.groups, GroupId)
    && IsMemberIndex(ix.usernameToGroups, t.groups, t.db.groups)
  }

  ghost predicate UsersSynced(ix: Indexes, t: Tables) {
    && Matches(t.shadows, t.db.shadows)
    && IsUserIndex(ix.nameToUser, t.users, t.db.users, UserName, ShadowBy(t.shadows, t.db.shadows))
    && IsUserIndex(ix.idToUser, t.users, t.db.users, UserId, ShadowBy(t.shadows, t.db.shadows))
  }

  /** The five indexes are what a reload of the entry lists would make of them. */
  ghost predicate Synced(ix: Indexes, t: Tables) { GroupsSynced(ix, t) && UsersSynced(ix, t) }

  lemma MembersAppend(groups: Lines<GroupRow>, rows: seq<Line<GroupRow>>, line: Line<Entry<GroupRow>>,
                      row: Line<GroupRow>, user: Bytes)
    requires Matches(groups, rows) && (line.Parsed? <==> row.Parsed?)
    ensures MemberEntries(groups + [line], rows + [row], user) == MemberEntries(groups, rows, user)
            + if line.Parsed? then Times(line.entry, Count(row.entry.userNames, user)) else []
  {
    assert (groups + [line])[..|groups|] == groups;
    assert Counts(rows + [row], user)[..|groups|] == Counts(rows, user);
  }

  /** What a user is listed in after some of the names of one more entry have been gone through. */
  ghost function Listed(done: Lines<GroupRow>, rows: seq<Line<GroupRow>>, e: Entry<GroupRow>, names: seq<Bytes>,
                        user: Bytes): seq<Entry<GroupRow>>
    requires Matches(done, rows)
  {
    MemberEntries(done, rows, user) + Times(e, Count(names, user))
  }

  lemma ListedSnoc(done: Lines<GroupRow>, rows: seq<Line<GroupRow>>, e: Entry<GroupRow>, names: seq<Bytes>, name: Bytes,
                   user: Bytes)
    requires Matches(done, rows)
    ensures Listed(done, rows, e, names + [name], user) == Listed(done, rows, e, names, user) + if name == user then [e]
            else []
  {
    CountConcat(names, [name], user);
    assert Times(e, Count(names, user) + 1) == Times(e, Count(names, user)) + [e];
  }

  method LoadGroupsRefs(groups: Lines<GroupRow>)
    returns (byName: map<Bytes, Entry<GroupRow>>, byId: map<uint32, Entry<GroupRow>>,
             byUser: map<Bytes, seq<Entry<GroupRow>>>)
    ensures IsIndex(byName, groups, Rows(groups), GroupName) && IsIndex(byId, groups, Rows(groups), GroupId)
    ensures IsMemberIndex(byUser, groups, Rows(groups))
  {
    ghost var rows := Rows(groups);
    byName, byId, byUser := map[], map[], map[];
    for i := 0 to |groups|
      invariant Rows(groups) == rows
      invariant IsIndex(byName, groups[..i], rows[..i], GroupName) && IsIndex(byId, groups[..i], rows[..i], GroupId)
      invariant IsMemberIndex(byUser, groups[..i], rows[..i])
    {
      assert groups[..i + 1] == groups[..i] + [groups[i]] && rows[..i + 1] == rows[..i] + [rows[i]];
      IsIndexAppend(byName, groups[..i], rows[..i], groups[i], rows[i], GroupName);
      IsIndexAppend(byId, groups[..i], rows[..i], groups[i], rows[i], GroupId);
      forall u
        ensures groups[i].Raw? ==>
                  MemberEntries(groups[..i + 1], rows[..i + 1], u) == MemberEntries(groups[..i], rows[..i], u)
      {
        MembersAppend(groups[..i], rows[..i], groups[i], rows[i], u);
      }
      if groups[i].Parsed? {
        var e := groups[i].entry;
        byName := byName[e.row.name := e];
        byId := byId[e.row.gid := e];
        byUser := AddMember(byUser, e, groups[..i], rows[..i]);
      }
    }
    assert groups[..|groups|] == groups && rows[..|groups|] == rows;
  }

  /** The inner loop of `loadGroupsRefs`: one entry is appended to the list of each of its members. */
  method AddMember(before: map<Bytes, seq<Entry<GroupRow>>>, e: Entry<GroupRow>, ghost done: Lines<GroupRow>,
                   ghost rows: seq<Line<GroupRow>>)
    returns (after: map<Bytes, seq<Entry<GroupRow>>>)
    requires IsMemberIndex(before, done, rows)
    ensures IsMemberIndex(after, done + [Parsed(e)], rows + [Parsed(e.row)])
  {
    after := before;
    var names := e.row.userNames;
    assert forall u :: Listed(done, rows, e, [], u) == MemberEntries(done, rows, u);
    for j := 0 to |names|
      invariant forall u :: Find(after, u) == IfAny(Listed(done, rows, e, names[..j], u))
    {
      var un := names[j];
      assert names[..j + 1] == names[..j] + [un];
      forall u { ListedSnoc(done, rows, e, names[..j], un, u); }
      after := after[un := (if un in after then after[un] else []) + [e]];
    }
    assert names[..|names|] == names;
    forall u ensures Find(after, u) == IfAny(MemberEntries(done + [Parsed(e)], rows + [Parsed(e.row)], u)) {
      MembersAppend(done, rows, Parsed(e), Parsed(e.row), u);
    }
  }

  method LoadShadowsRefs(shadows: Lines<ShadowRow>) returns (byName: map<Bytes, Entry<ShadowRow>>)
    ensures IsIndex(byName, shadows, Rows(shadows), ShadowName)
  {
    ghost var rows := Rows(shadows);
    byName := map[];
    for i := 0 to |shadows|
      invariant Rows(shadows) == rows
      invariant IsIndex(byName, shadows[..i], rows[..i], ShadowName)
    {
      assert shadows[..i + 1] == shadows[..i] + [shadows[i]] && rows[..i + 1] == rows[..i] + [rows[i]];
      IsIndexAppend(byName, shadows[..i], rows[..i], shadows[i], rows[i], ShadowName);
      if shadows[i].Parsed? {
        byName := byName[shadows[i].entry.row.name := shadows[i].entry];
      }
    }
    assert shadows[..|shadows|] == shadows && rows[..|shadows|] == rows;
  }

  method LoadUsersRefs(users: Lines<PasswdRow>, byShadow: map<Bytes, Entry<ShadowRow>>)
    returns (byName: map<Bytes, UserRef>, byId: map<uint32, UserRef>)
    ensures IsUserIndex(byName, users, Rows(users), UserName, name => Find(byShadow, name))
    ensures IsUserIndex(byId, users, Rows(users), UserId, name => Find(byShadow, name))
  {
    ghost var rows, shadowOf := Rows(users), (name: Bytes) => Find(byShadow, name);
    byName, byId := map[], map[];
    for i := 0 to |users|
      invariant Rows(users) == rows
      invariant IsUserIndex(byName, users[..i], rows[..i], UserName, shadowOf)
      invariant IsUserIndex(byId, users[..i], rows[..i], UserId, shadowOf)
    {
      assert users[..i + 1] == users[..i] + [users[i]] && rows[..i + 1] == rows[..i] + [rows[i]];
      UserIndexAppend(byName, users[..i], rows[..i], UserName, shadowOf, users[i], rows[i]);
      UserIndexAppend(byId, users[..i], rows[..i], UserId, shadowOf, users[i], rows[i]);
      if users[i].Parsed? {
        var e := users[i].entry;
        var ref := UserRef(e, Find(byShadow, e.row.name));
        byName := byName[e.row.name := ref];
        byId := byId[e.row.uid := ref];
      }
    }
    assert users[..|users|] == users && rows[..|users|] == rows;
  }

  method LoadUserIndexes(users: Lines<PasswdRow>, shadows: Lines<ShadowRow>, ghost rows: seq<Line<PasswdRow>>,
                         ghost shadowRows: seq<Line<ShadowRow>>)
    returns (byName: map<Bytes, UserRef>, byId: map<uint32, UserRef>)
    requires Rows(users) == rows && Rows(shadows) == shadowRows
    ensures IsUserIndex(byName, users, rows, UserName, ShadowBy(shadows, shadowRows))
    ensures IsUserIndex(byId, users, rows, UserId, ShadowBy(shadows, shadowRows))
  {
    assert forall e :: e in Objects(users) ==> allocated(e);
    assert forall e :: e in Objects(shadows) ==> allocated(e);
    var byShadow := LoadShadowsRefs(shadows);
    assert Rows(users) == rows && Rows(shadows) == shadowRows;
    byName, byId := LoadUsersRefs(users, byShadow);
    assert Rows(users) == rows && Rows(shadows) == shadowRows;
    ghost var f, g := (name: Bytes) => Find(byShadow, name), ShadowBy(shadows, shadowRows);
    UserIndexBySame(byName, users, rows, UserName, f, g);
    UserIndexBySame(byId, users, rows, UserId, f, g);
  }

  // ------------------------------------------------------- ids and positions

  /** `findHighestUid` and `findHighestGid`. */
  method FindHighest<T>(lines: Lines<T>, id: T -> uint32, skipped: T -> bool) returns (highest: uint32)
    ensures highest == Highest(Rows(lines), id, skipped)
  {
    ghost var rows := Rows(lines);
    highest := 0;
    for i := 0 to |lines|
      invariant highest == Highest(rows[..i], id, skipped)
    {
      assert rows[..i + 1][..i] == rows[..i];
      if lines[i].Parsed? && !skipped(lines[i].entry.row) && id(lines[i].entry.row) > highest {
        highest := id(lines[i].entry.row);
      }
    }
    assert rows[..|lines|] == rows;
  }

  method HasEntry<T>(lines: Lines<T>) returns (any: bool)
    ensures any == HasRow(Rows(lines))
  {
    ghost var rows := Rows(lines);
    for i := 0 to |lines|
      invariant forall j :: 0 <= j < i ==> !rows[j].Parsed?
    {
      if lines[i].Parsed? { return true; }
    }
    return false;
  }

  /** An index of entries has the entries at the positions of an index of positions. */
  ghost predicate PointsTo<T, K(!new)>(m: map<K, Entry<T>>, lines: Lines<T>, ix: map<K, nat>) {
    && m.Keys == ix.Keys
    && (forall k :: k in ix ==> ix[k] < |lines| && lines[ix[k]] == Parsed(m[k]))
  }

  lemma IndexPoints<T, K(!new)>(m: map<K, Entry<T>>, lines: Lines<T>, rows: seq<Line<T>>, key: T -> K)
    requires IsIndex(m, lines, rows, key)
    ensures PointsTo(m, lines, IndexBy(rows, key))
  {
    forall k ensures k in m <==> k in IndexBy(rows, key)
      ensures k in m ==> lines[IndexBy(rows, key)[k]] == Parsed(m[k])
    {
      assert Find(m, k) == LastEntry(lines, rows, key, k);
    }
  }

  /** A lookup by name first and by id next, as one of positions and as one of entries. */
  lemma LookupPoints(byName: map<Bytes, Entry<GroupRow>>, byGid: map<uint32, Entry<GroupRow>>, groups: Lines<GroupRow>,
                     t: GroupTable, req: GroupReq)
    requires PointsTo(byName, groups, t.byName) && PointsTo(byGid, groups, t.byGid)
    ensures var found := if req.name != [] && req.name in byName then Some(byName[req.name])
                         else if req.gid.Some? then Find(byGid, req.gid.value) else None;
            match LookupGroup(t, req)
            case None => found == None
            case Some(at) => at < |groups| && found.Some? && groups[at] == Parsed(found.value)
  {
  }

  /** A change of name or gid leaves the member index alone. */
  lemma SameMembers(byUser: map<Bytes, seq<Entry<GroupRow>>>, groups: Lines<GroupRow>, lines: seq<Line<GroupRow>>,
                    at: nat, row: GroupRow)
    requires IsMemberIndex(byUser, groups, lines) && IsRow(lines, at) && row.userNames == lines[at].entry.userNames
    ensures IsMemberIndex(byUser, groups, lines[at := Parsed(row)])
  {
    forall u ensures Find(byUser, u) == IfAny(MemberEntries(groups, lines[at := Parsed(row)], u)) {
      assert Counts(lines[at := Parsed(row)], u) == Counts(lines, u);
    }
  }

  lemma EnsureGroupsStep(t: GroupTable, reqs: seq<GroupReq>, i: nat, opts: Opts)
    requires TableOk(t) && i < |reqs| && EnsureGroups(t, reqs[..i], opts).refs.Ok?
    ensures var before := EnsureGroups(t, reqs[..i], opts);
            EnsureGroups(t, reqs[..i + 1], opts) ==
            match EnsureGroup(before.table, GroupOrDefaults(reqs[i], []), opts)
            case Err(e) => GroupsStep(before.table, Err(e))
            case Ok(s) => GroupsStep(s.table, Ok(before.refs.value + [s.at]))
  {
    assert reqs[..i + 1][..i] == reqs[..i];
  }

  /** After an error nothing more happens. */
  lemma {:induction false} EnsureGroupsStop(t: GroupTable, reqs: seq<GroupReq>, i: nat, opts: Opts)
    requires TableOk(t) && i <= |reqs| && EnsureGroups(t, reqs[..i], opts).refs.Err?
    ensures EnsureGroups(t, reqs, opts) == EnsureGroups(t, reqs[..i], opts)
    decreases |reqs|
  {
    if i == |reqs| {
      assert reqs[..i] == reqs;
    } else {
      var n := |reqs| - 1;
      assert reqs[..n][..i] == reqs[..i];
      EnsureGroupsStop(t, reqs[..n], i, opts);
    }
  }

  /** The indexes of groups point to where those of a table do. */
  ghost predicate GroupsIndexed(byName: map<Bytes, Entry<GroupRow>>, byGid: map<uint32, Entry<GroupRow>>,
                                byUser: map<Bytes, seq<Entry<GroupRow>>>, groups: Lines<GroupRow>, t: GroupTable)
  {
    && TableOk(t) && Distinct(groups) && IsMemberIndex(byUser, groups, t.lines)
    && PointsTo(byName, groups, t.byName) && PointsTo(byGid, groups, t.byGid)
  }

  lemma CreatedIndexed(byName: map<Bytes, Entry<GroupRow>>, byGid: map<uint32, Entry<GroupRow>>,
                       byUser: map<Bytes, seq<Entry<GroupRow>>>, groups: Lines<GroupRow>, t: GroupTable,
                       ref: Entry<GroupRow>, row: GroupRow)
    requires GroupsIndexed(byName, byGid, byUser, groups, t) && ref !in Objects(groups) && row.userNames == []
    ensures GroupsIndexed(byName[row.name := ref], byGid[row.gid := ref], byUser, groups + [Parsed(ref)],
                          WithNewGroup(t, row))
  {
    var after := groups + [Parsed(ref)];
    MembersCreated(byUser, groups, t.lines, ref, row);
    assert Distinct(after) by {
      assert forall i :: 0 <= i < |groups| && groups[i].Parsed? ==> groups[i].entry in Objects(groups);
    }
    PointsAppended(byName, groups, t.byName, row.name, ref);
    PointsAppended(byGid, groups, t.byGid, row.gid, ref);
    assert TableOk(WithNewGroup(t, row)) by { CreatedTableOk(t, row); }
  }

  lemma CreatedTableOk(t: GroupTable, row: GroupRow)
    requires TableOk(t)
    ensures TableOk(WithNewGroup(t, row))
  {
  }

  lemma PointsAppended<T, K(!new)>(m: map<K, Entry<T>>, lines: Lines<T>, ix: map<K, nat>, k: K, ref: Entry<T>)
    requires PointsTo(m, lines, ix)
    ensures PointsTo(m[k := ref], lines + [Parsed(ref)], ix[k := |lines|])
  {
  }

  lemma AtGrown(groups: Lines<GroupRow>, after: Lines<GroupRow>, refs: seq<Entry<GroupRow>>, at: seq<nat>,
                ref: Entry<GroupRow>, p: nat)
    requires At(groups, refs, at) && groups <= after && p < |after| && after[p] == Parsed(ref)
    ensures At(after, refs + [ref], at + [p])
  {
  }

  lemma MembersCreated(byUser: map<Bytes, seq<Entry<GroupRow>>>, groups: Lines<GroupRow>, lines: seq<Line<GroupRow>>,
                       ref: Entry<GroupRow>, row: GroupRow)
    requires IsMemberIndex(byUser, groups, lines) && row.userNames == []
    ensures IsMemberIndex(byUser, groups + [Parsed(ref)], lines + [Parsed(row)])
  {
    forall u ensures Find(byUser, u) == IfAny(MemberEntries(groups + [Parsed(ref)], lines + [Parsed(row)], u)) {
      MembersAppend(groups, lines, Parsed(ref), Parsed(row), u);
      assert Times(ref, Count(row.userNames, u)) == [];
      assert MemberEntries(groups, lines, u) + [] == MemberEntries(groups, lines, u);
    }
  }

  lemma UpdatedIndexed(byName: map<Bytes, Entry<GroupRow>>, byGid: map<uint32, Entry<GroupRow>>,
                       byUser: map<Bytes, seq<Entry<GroupRow>>>, groups: Lines<GroupRow>, t: GroupTable, at: nat,
                       row: GroupRow)
    requires GroupsIndexed(byName, byGid, byUser, groups, t)
    requires IsRow(t.lines, at) && row.userNames == t.lines[at].entry.userNames
    ensures var former, ref := t.lines[at].entry, groups[at].entry;
            GroupsIndexed(if former.name != row.name then (byName - {former.name})[row.name := ref] else byName,
                          if former.gid != row.gid then byGid[row.gid := ref] else byGid,
                          byUser, groups, WithUpdatedGroup(t, at, row))
  {
    SameMembers(byUser, groups, t.lines, at, row);
    UpdatedTableOk(t, at, row);
  }

  lemma UpdatedTableOk(t: GroupTable, at: nat, row: GroupRow)
    requires TableOk(t) && IsRow(t.lines, at)
    ensures TableOk(WithUpdatedGroup(t, at, row))
  {
  }

  lemma DeleteThenSet<K, V>(m: map<K, V>, k: K, v: V)
    ensures (m - {k})[k := v] == m[k := v]
  {
  }

  // --------------------------------------------------------- groups of a user

  lemma LookupGroupIsScan(groups: seq<Line<GroupRow>>, req: GroupReq)
    ensures match LookupGroup(LoadedTable(groups), req)
            case Some(at) => IsRow(groups, at) && FindGroup(groups, req) == Some(groups[at].entry)
            case None => FindGroup(groups, req) == None
  {
    LookupIsScan(groups, GroupName, req.name);
    if req.gid.Some? {
      LookupIsScan(groups, GroupId, req.gid.value);
    }
  }

  lemma {:induction false} MemberRowsAppend(lines: seq<Line<GroupRow>>, line: Line<GroupRow>, user: Bytes)
    ensures MemberRows(lines + [line], user) ==
            MemberRows(lines, user) + if line.Parsed? then Times(line.entry, Count(line.entry.userNames, user)) else []
  {
    if lines == [] {
      assert lines + [line] == [line];
    } else {
      MemberRowsAppend(lines[1..], line, user);
      assert (lines + [line])[1..] == lines[1..] + [line];
    }
  }

  /** The groups of a user are the rows at its positions. */
  lemma {:induction false} MemberRowsAt(lines: seq<Line<GroupRow>>, user: Bytes)
    ensures var pos, rows := Positions(Counts(lines, user)), MemberRows(lines, user);
            |pos| == |rows| && forall j :: 0 <= j < |pos| ==> IsRow(lines, pos[j]) && lines[pos[j]].entry == rows[j]
  {
    if lines != [] {
      var n := |lines| - 1;
      MemberRowsAt(lines[..n], user);
      MemberRowsAppend(lines[..n], lines[n], user);
      assert lines == lines[..n] + [lines[n]];
      assert Counts(lines, user)[..n] == Counts(lines[..n], user);
    }
  }

  /** The nested loops at the end of `isRequirementFulfilled`. */
  method RefsMatch(refs: seq<Entry<GroupRow>>, reqs: seq<GroupReq>) returns (ok: bool)
    ensures ok <==> |reqs| == |refs| && forall i :: 0 <= i < |refs| ==> IsAskedFor(reqs, refs[i].row)
  {
    if |reqs| != |refs| { return false; }
    for i := 0 to |refs|
      invariant forall k :: 0 <= k < i ==> IsAskedFor(reqs, refs[k].row)
    {
      var atLeastOneMatches := false;
      for j := 0 to |reqs|
        invariant !atLeastOneMatches && forall k :: 0 <= k < j ==> !GroupFulfils(reqs[k], refs[i].row)
      {
        if GroupFulfils(reqs[j], refs[i].row) {
          atLeastOneMatches := true;
          break;
        }
      }
      if !atLeastOneMatches { return false; }
    }
    return true;
  }

  lemma RowsMatch(groups: Lines<GroupRow>, refs: seq<Entry<GroupRow>>, lines: seq<Line<GroupRow>>, user: Bytes,
                  reqs: seq<GroupReq>)
    requires Rows(groups) == lines && refs == MemberEntries(groups, lines, user)
    ensures GroupsMatch(MemberRows(lines, user), reqs) <==>
            |reqs| == |refs| && forall i :: 0 <= i < |refs| ==> IsAskedFor(reqs, refs[i].row)
  {
    MembersListed(groups, lines, user);
    MemberRowsAt(lines, user);
    var pos := Positions(Counts(lines, user));
    assert forall j :: 0 <= j < |refs| ==> refs[j].row == lines[pos[j]].entry;
  }

  lemma AllGroupsAre(db: Db, req: UserReq, opts: Opts, s: GroupStep)
    requires EnsureGroup(LoadedTable(db.groups), GroupOrDefaults(req.group, req.name), opts) == Ok(s)
    requires TableOk(s.table) && IsRow(s.table.lines, s.at)
    ensures AllGroups(db, req, opts) ==
            match EnsureGroups(s.table, req.groups, opts).refs
            case Err(e) => Err(e)
            case Ok(refs) => Ok(Wanted(s.table.lines[s.at].entry.gid, EnsureGroups(s.table, req.groups, opts).table,
                                       refs))
  {
  }

  /** The shadow rows after the last one of a user has got the name asked for, if there is one. */
  ghost function RenamedShadow(rows: seq<Line<ShadowRow>>, former: Bytes, name: Bytes): seq<Line<ShadowRow>> {
    match Find(IndexBy(rows, ShadowName), former)
    case None => rows
    case Some(s) => if name == [] then rows else rows[s := Parsed(rows[s].entry.(name := name))]
  }

  lemma ModifiedDbIs(db: Db, p: nat, req: UserReq, gid: uint32, lines: seq<Line<GroupRow>>, at: seq<nat>)
    requires IsRow(db.users, p)
    ensures var former := db.users[p].entry;
            var user := UpdatedUser(former, req, gid);
            ModifiedDb(db, p, req, gid, lines, at) ==
            if req.name == [] || former.name in IndexBy(db.shadows, ShadowName)
            then Ok(Db(db.users[p := Parsed(user)], RegroupedGroups(lines, at, former.name, user.name),
                       RenamedShadow(db.shadows, former.name, req.name)))
            else Err(NilShadow)
  {
  }

  /** What `Ensure` does when its checks decide nothing. */
  lemma EnsureDbIs(db: Db, req: UserReq, opts: Opts, today: uint32)
    requires PreChecked(db, req, opts) == None
    ensures EnsureDb(db, req, opts, today) ==
            match AllGroups(db, req, opts)
            case Err(e) => Err(e)
            case Ok(all) => EnsuredUser(db, req, all, today)
    ensures EnsureDb(db, req, opts, today).Ok? ==> EnsureDb(db, req, opts, today).value.outcome != Unchanged
  {
  }

  /** What it does when they do. */
  lemma DecidedIs(files: Files, db: Db, cfg: Config, req: UserReq, opts: Opts, today: uint32)
    requires PreChecked(db, req, opts).Some?
    ensures EnsureAndSave(files, db, cfg, req, opts, today) == Run(files, PreChecked(db, req, opts).value)
  {
  }

  /** How `Ensure` moves the indexes along with a changed user: the one by name only if the name stayed. A row that the
      user had hidden under its former id does not come back. */
  ghost function MovedRefs(ix: Indexes, ref: UserRef, former: PasswdRow, user: PasswdRow,
                           refs: seq<Entry<GroupRow>>): Indexes {
    ix.(nameToUser := if former.name == user.name then ix.nameToUser[user.name := ref] else ix.nameToUser,
        idToUser := if former.uid != user.uid then (ix.idToUser - {former.uid})[user.uid := ref] else ix.idToUser,
        usernameToGroups := (if former.name != user.name then ix.usernameToGroups - {former.name}
                             else ix.usernameToGroups)[user.name := refs])
  }
}
