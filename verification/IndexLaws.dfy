/** When the indexes that are edited along with the entries are those that a reload would make. */
module IndexLaws {
  import opened Bytes
  import opened ColonCodec
  import opened UnixRows
  import opened UserDb
  import opened UserDbLaws
  import opened Entries
  import opened Regrouping
  import opened Indexing

  // ------------------------------------------------------- an index as positions

  function Keys<T, K>(lines: seq<Line<T>>, key: T -> K): seq<Option<K>> {
    seq(|lines|, i requires 0 <= i < |lines| => if lines[i].Parsed? then Some(key(lines[i].entry)) else None)
  }

  /** Every key has its last position. */
  ghost predicate IsLast<K>(keys: seq<Option<K>>, m: map<K, nat>) {
    && (forall i :: 0 <= i < |keys| && keys[i].Some? ==> keys[i].value in m && i <= m[keys[i].value])
    && (forall k :: k in m.Keys ==> m[k] < |keys| && keys[m[k]] == Some(k))
  }

  lemma IndexByUnique<T, K>(lines: seq<Line<T>>, key: T -> K, m: map<K, nat>)
    ensures IsLast(Keys(lines, key), m) <==> m == IndexBy(lines, key)
  {
    var keys := Keys(lines, key);
    var ix := IndexBy(lines, key);
    forall i | 0 <= i < |keys| && keys[i].Some? ensures keys[i].value in ix && i <= ix[keys[i].value] {
      IndexByIsLast(lines, key, i);
    }
    if IsLast(keys, m) {
      LastUnique(keys, m, ix);
    }
  }

  lemma LastUnique<K>(keys: seq<Option<K>>, m: map<K, nat>, n: map<K, nat>)
    requires IsLast(keys, m) && IsLast(keys, n)
    ensures m == n
  {
    forall k | k in m.Keys ensures k in n.Keys && m[k] == n[k] {
      assert keys[m[k]] == Some(k);
    }
    forall k | k in n.Keys ensures k in m.Keys {
      assert keys[n[k]] == Some(k);
    }
  }

  ghost predicate Later<K>(keys: seq<Option<K>>, at: nat, k: K) { exists i :: at < i < |keys| && keys[i] == Some(k) }

  ghost predicate Elsewhere<K>(keys: seq<Option<K>>, at: nat, k: K) {
    exists i :: 0 <= i < |keys| && i != at && keys[i] == Some(k)
  }

  /** A key has changed and its former one was left in the index. */
  lemma LeftBehind<K>(keys: seq<Option<K>>, m: map<K, nat>, at: nat, k: K)
    requires IsLast(keys, m) && at < |keys| && keys[at].Some? && keys[at].value != k
    ensures IsLast(keys[at := Some(k)], m[k := at]) <==> Later(keys, at, keys[at].value) && !Later(keys, at, k)
  {
    var former, after, n := keys[at].value, keys[at := Some(k)], m[k := at];
    if IsLast(after, n) {
      assert n[former] == m[former] && after[n[former]] == Some(former);
      assert !Later(keys, at, k) by {
        forall i | at < i < |keys| ensures keys[i] != Some(k) {
          assert after[i] == keys[i];
        }
      }
    }
    if Later(keys, at, former) && !Later(keys, at, k) {
      LeftBehindRight(keys, m, at, k);
    }
  }

  lemma LeftBehindRight<K>(keys: seq<Option<K>>, m: map<K, nat>, at: nat, k: K)
    requires IsLast(keys, m) && at < |keys| && keys[at].Some? && keys[at].value != k
    requires Later(keys, at, keys[at].value) && !Later(keys, at, k)
    ensures IsLast(keys[at := Some(k)], m[k := at])
  {
    var former, after, n := keys[at].value, keys[at := Some(k)], m[k := at];
    forall i | 0 <= i < |after| && after[i].Some? ensures after[i].value in n && i <= n[after[i].value] {
      if i != at {
        assert keys[i] == after[i];
      }
    }
    forall x | x in n.Keys ensures n[x] < |after| && after[n[x]] == Some(x) {
      if x == former {
        var i :| at < i < |keys| && keys[i] == Some(former);
      }
    }
  }

  /** A key has changed and its former one was deleted from the index. */
  lemma Replaced<K>(keys: seq<Option<K>>, m: map<K, nat>, at: nat, k: K)
    requires IsLast(keys, m) && at < |keys| && keys[at].Some? && keys[at].value != k
    ensures IsLast(keys[at := Some(k)], (m - {keys[at].value})[k := at])
       <==> !Elsewhere(keys, at, keys[at].value) && !Later(keys, at, k)
  {
    var former, after, n := keys[at].value, keys[at := Some(k)], (m - {keys[at].value})[k := at];
    if IsLast(after, n) {
      forall i | 0 <= i < |keys| && i != at ensures keys[i] != Some(former) && (i > at ==> keys[i] != Some(k)) {
        assert after[i] == keys[i] && former !in n;
      }
    } else if !Elsewhere(keys, at, former) && !Later(keys, at, k) {
      ReplacedRight(keys, m, at, k);
    }
  }

  lemma ReplacedRight<K>(keys: seq<Option<K>>, m: map<K, nat>, at: nat, k: K)
    requires IsLast(keys, m) && at < |keys| && keys[at].Some? && keys[at].value != k
    requires !Elsewhere(keys, at, keys[at].value) && !Later(keys, at, k)
    ensures IsLast(keys[at := Some(k)], (m - {keys[at].value})[k := at])
  {
    var former, after, n := keys[at].value, keys[at := Some(k)], (m - {keys[at].value})[k := at];
    forall i | 0 <= i < |after| && after[i].Some? ensures after[i].value in n && i <= n[after[i].value] {
      if i != at {
        assert keys[i] == after[i];
      }
    }
    forall x | x in n.Keys ensures n[x] < |after| && after[n[x]] == Some(x) {
      if x != k {
        assert x in m.Keys && keys[m[x]] == Some(x) && m[x] != at;
      }
    }
  }

  lemma SameKey<T, K>(lines: seq<Line<T>>, at: nat, row: T, key: T -> K)
    requires IsRow(lines, at) && key(row) == key(lines[at].entry)
    ensures IndexBy(lines[at := Parsed(row)], key) == IndexBy(lines, key)
  {
    var after := lines[at := Parsed(row)];
    assert Keys(after, key) == Keys(lines, key);
    IndexByUnique(lines, key, IndexBy(lines, key));
    IndexByUnique(after, key, IndexBy(lines, key));
  }

  lemma LeftBehindIndex<T, K>(lines: seq<Line<T>>, at: nat, row: T, key: T -> K)
    requires IsRow(lines, at) && key(row) != key(lines[at].entry)
    ensures IndexBy(lines, key)[key(row) := at] == IndexBy(lines[at := Parsed(row)], key)
       <==> Later(Keys(lines, key), at, key(lines[at].entry)) && !Later(Keys(lines, key), at, key(row))
  {
    var after := lines[at := Parsed(row)];
    assert Keys(after, key) == Keys(lines, key)[at := Some(key(row))];
    IndexByUnique(lines, key, IndexBy(lines, key));
    IndexByUnique(after, key, IndexBy(lines, key)[key(row) := at]);
    LeftBehind(Keys(lines, key), IndexBy(lines, key), at, key(row));
  }

  /** An index in which a key was deleted and another one set. */
  function Moved<K, V>(m: map<K, V>, gone: K, k: K, v: V): map<K, V> { (m - {gone})[k := v] }

  lemma ReplacedIndex<T, K>(lines: seq<Line<T>>, at: nat, row: T, key: T -> K)
    requires IsRow(lines, at) && key(row) != key(lines[at].entry)
    ensures Moved(IndexBy(lines, key), key(lines[at].entry), key(row), at) == IndexBy(lines[at := Parsed(row)], key)
       <==> !Elsewhere(Keys(lines, key), at, key(lines[at].entry)) && !Later(Keys(lines, key), at, key(row))
  {
    var after := lines[at := Parsed(row)];
    assert Keys(after, key) == Keys(lines, key)[at := Some(key(row))];
    IndexByUnique(lines, key, IndexBy(lines, key));
    IndexByUnique(after, key, (IndexBy(lines, key) - {key(lines[at].entry)})[key(row) := at]);
    Replaced(Keys(lines, key), IndexBy(lines, key), at, key(row));
  }

  lemma NotIndexedNotLater<T, K>(lines: seq<Line<T>>, at: nat, key: T -> K, k: K)
    requires k !in IndexBy(lines, key)
    ensures !Later(Keys(lines, key), at, k)
  {
    IndexByUnique(lines, key, IndexBy(lines, key));
  }

  // ------------------------------------------------------------ ensured groups

  /** A changed gid leaves its former one behind in the index, which is right only if a later row has it; a changed
      name hides other rows with the former one. */
  ghost predicate UpdateIsExact(lines: seq<Line<GroupRow>>, at: nat, row: GroupRow)
    requires IsRow(lines, at)
  {
    var former := lines[at].entry;
    if row.gid != former.gid
    then Later(Keys(lines, GroupId), at, former.gid) && !Later(Keys(lines, GroupId), at, row.gid)
    else !Elsewhere(Keys(lines, GroupName), at, former.name)
  }

  /** MAIN: the group indexes that `ensureGroup` edits are those of a reload, always for a new group, and for a
      changed one exactly under the condition above. */
  lemma EnsureGroupIndexes(lines: seq<Line<GroupRow>>, req: GroupReq, opts: Opts)
    requires EnsureGroup(LoadedTable(lines), req, opts).Ok?
    ensures var s := EnsureGroup(LoadedTable(lines), req, opts).value;
            s.table == LoadedTable(s.table.lines) <==>
              (s.outcome == Modified ==>
                 IsRow(lines, s.at) && UpdateIsExact(lines, s.at, UpdatedGroup(lines[s.at].entry, req)))
  {
    var s := EnsureGroup(LoadedTable(lines), req, opts).value;
    if s.outcome == Created {
      assert s.table.lines[..|lines|] == lines;
    } else if s.outcome == Modified {
      var former, row := lines[s.at].entry, UpdatedGroup(lines[s.at].entry, req);
      if row.gid != former.gid {
        UpdatedGid(lines, s.at, row);
      } else {
        UpdatedName(lines, s.at, row);
      }
    }
  }

  lemma UpdatedGid(lines: seq<Line<GroupRow>>, at: nat, row: GroupRow)
    requires IsRow(lines, at) && row.gid != lines[at].entry.gid && row.name == lines[at].entry.name
    ensures var t := WithUpdatedGroup(LoadedTable(lines), at, row);
            t == LoadedTable(t.lines) <==> UpdateIsExact(lines, at, row)
  {
    SameKey(lines, at, row, GroupName);
    LeftBehindIndex(lines, at, row, GroupId);
  }

  lemma UpdatedName(lines: seq<Line<GroupRow>>, at: nat, row: GroupRow)
    requires IsRow(lines, at) && row.gid == lines[at].entry.gid && row.name != lines[at].entry.name
    requires row.name !in IndexBy(lines, GroupName)
    ensures var t := WithUpdatedGroup(LoadedTable(lines), at, row);
            t == LoadedTable(t.lines) <==> UpdateIsExact(lines, at, row)
  {
    SameKey(lines, at, row, GroupId);
    NotIndexedNotLater(lines, at, GroupName, row.name);
    ReplacedIndex(lines, at, row, GroupName);
  }

  /** The indexes of entries are exact when the indexes of positions they point along with are. */
  lemma PointsIsIndex<T, K(!new)>(m: map<K, Entry<T>>, lines: Lines<T>, rows: seq<Line<T>>, key: T -> K,
                                  ix: map<K, nat>)
    requires Matches(lines, rows) && Distinct(lines) && PointsTo(m, lines, ix)
    ensures IsIndex(m, lines, rows, key) <==> ix == IndexBy(rows, key)
  {
    if ix == IndexBy(rows, key) {
      assert forall k :: Find(m, k) == LastEntry(lines, rows, key, k);
    }
    if IsIndex(m, lines, rows, key) {
      IndexPoints(m, lines, rows, key);
    }
  }

  lemma GroupsIndexedSynced(ix: Indexes, t: Tables, table: GroupTable)
    requires GroupsIndexed(ix.nameToGroup, ix.idToGroup, ix.usernameToGroups, t.groups, table)
    requires t.db.groups == table.lines
    ensures GroupsSynced(ix, t) <==> table == LoadedTable(table.lines)
  {
    PointsIsIndex(ix.nameToGroup, t.groups, table.lines, GroupName, table.byName);
    PointsIsIndex(ix.idToGroup, t.groups, table.lines, GroupId, table.byGid);
  }

  // ------------------------------------------------------------- a deleted user

  lemma IndexOfLeft<K(!new)>(m: map<K, Entry<GroupRow>>, groups: Lines<GroupRow>, rows: seq<Line<GroupRow>>,
                             key: GroupRow -> K, name: Bytes)
    requires IsIndex(m, groups, rows, key) && forall g: GroupRow, names :: key(g.(userNames := names)) == key(g)
    ensures IsIndex(m, groups, LeftGroups(rows, name), key)
  {
    IndexBySame(rows, LeftGroups(rows, name), key);
    forall k ensures LastEntry(groups, LeftGroups(rows, name), key, k) == LastEntry(groups, rows, key, k) {
    }
  }

  lemma {:induction false} NoMemberships(groups: Lines<GroupRow>, counts: seq<nat>)
    requires |counts| == |groups| && forall i :: 0 <= i < |counts| ==> counts[i] == 0
    ensures Memberships(groups, counts) == []
  {
    if groups != [] {
      NoMemberships(groups[..|groups| - 1], counts[..|groups| - 1]);
    }
  }

  lemma MembersLeft(m: map<Bytes, seq<Entry<GroupRow>>>, groups: Lines<GroupRow>, rows: seq<Line<GroupRow>>,
                    name: Bytes)
    requires IsMemberIndex(m, groups, rows)
    ensures IsMemberIndex(m - {name}, groups, LeftGroups(rows, name))
  {
    var after := LeftGroups(rows, name);
    forall u ensures Find(m - {name}, u) == IfAny(MemberEntries(groups, after, u)) {
      forall i | 0 <= i < |rows| ensures Counts(after, u)[i] == if u == name then 0 else Counts(rows, u)[i] {
        if rows[i].Parsed? {
          CountWithout(rows[i].entry.userNames, name, u);
        }
      }
      if u == name {
        NoMemberships(groups, Counts(after, u));
      } else {
        assert Counts(after, u) == Counts(rows, u);
        assert Find(m, u) == IfAny(MemberEntries(groups, rows, u));
      }
    }
  }

  /** What the deletion of a user relies on: its name has no row with another id, and no other name is found at a
      row with its id. */
  ghost predicate Unambiguous(users: seq<Line<PasswdRow>>, row: PasswdRow) {
    forall name: Bytes :: NameStaysRight(users, row, name)
  }

  lemma NotKept<T>(lines: Lines<T>, rows: seq<Line<T>>, gone: T -> bool, at: nat)
    requires Matches(lines, rows) && Distinct(lines) && IsRow(rows, at) && gone(rows[at].entry)
    ensures lines[at] !in Keep(lines, rows, gone)
  {
    KeepMembers(lines, rows, gone, lines[at]);
  }

  ghost predicate NameStaysRight(rows: seq<Line<PasswdRow>>, row: PasswdRow, name: Bytes) {
    if name == row.name then forall u: PasswdRow :: Parsed(u) in rows && u.name == name ==> u.uid == row.uid
    else name in IndexBy(rows, UserName) ==> rows[IndexBy(rows, UserName)[name]].entry.uid != row.uid
  }

  /** One name after the rows with an id are gone: the index without the user's name has what a reload finds. */
  lemma NameAfterDelete(m: map<Bytes, Entry<PasswdRow>>, users: Lines<PasswdRow>, rows: seq<Line<PasswdRow>>,
                        row: PasswdRow,
                        gone: PasswdRow -> bool, name: Bytes)
    requires IsIndex(m, users, rows, UserName) && Distinct(users) && forall u :: gone(u) <==> u.uid == row.uid
    ensures Matches(Keep(users, rows, gone), Dropped(rows, gone))
    ensures Find(m - {row.name}, name) == LastEntry(Keep(users, rows, gone), Dropped(rows, gone), UserName, name)
       <==> NameStaysRight(rows, row, name)
  {
    KeepMatches(users, rows, gone);
    var kept, dropped, ix := Keep(users, rows, gone), Dropped(rows, gone), IndexBy(rows, UserName);
    assert Find(m, name) == LastEntry(users, rows, UserName, name);
    if name == row.name {
      LookupIsScan(dropped, UserName, name);
      FindLastIn(dropped, UserName, name);
      DroppedIs(rows, gone);
    } else if name in ix && rows[ix[name]].entry.uid == row.uid {
      NotKept(users, rows, gone, ix[name]);
    } else {
      LastEntryKept(users, rows, gone, UserName, name);
    }
  }

  /** The index by id is right in any case. */
  lemma IdsAfterDelete(m: map<uint32, Entry<PasswdRow>>, users: Lines<PasswdRow>, rows: seq<Line<PasswdRow>>,
                       uid: uint32,
                       gone: PasswdRow -> bool)
    requires IsIndex(m, users, rows, UserId) && forall u :: gone(u) <==> u.uid == uid
    ensures IsIndex(m - {uid}, Keep(users, rows, gone), Dropped(rows, gone), UserId)
  {
    KeepMatches(users, rows, gone);
    var kept, dropped := Keep(users, rows, gone), Dropped(rows, gone);
    forall k ensures Find(m - {uid}, k) == LastEntry(kept, dropped, UserId, k) {
      assert Find(m, k) == LastEntry(users, rows, UserId, k);
      if k == uid {
        LookupIsScan(dropped, UserId, k);
        FindLastIn(dropped, UserId, k);
        DroppedIs(rows, gone);
      } else {
        LastEntryKept(users, rows, gone, UserId, k);
      }
    }
  }

  /** The lists and the rows after `deleteRef`. */
  ghost function WithoutUser(t: Tables, row: PasswdRow): Tables
    requires Matches(t.users, t.db.users) && Matches(t.shadows, t.db.shadows)
  {
    var goneUser, goneShadow := SameUid(row), SameName(row);
    Tables(Keep(t.users, t.db.users, goneUser), t.groups, Keep(t.shadows, t.db.shadows, goneShadow),
           Db(Dropped(t.db.users, goneUser), LeftGroups(t.db.groups, row.name), Dropped(t.db.shadows, goneShadow)))
  }

  ghost function WithoutRefs(ix: Indexes, row: PasswdRow): Indexes {
    Indexes(ix.nameToUser - {row.name}, ix.idToUser - {row.uid}, ix.nameToGroup, ix.idToGroup,
            ix.usernameToGroups - {row.name})
  }

  lemma ShadowKept(t: Tables, row: PasswdRow, name: Bytes)
    requires Matches(t.shadows, t.db.shadows) && Matches(t.users, t.db.users) && name != row.name
    ensures var after := WithoutUser(t, row);
            Matches(after.shadows, after.db.shadows)
                && ShadowBy(after.shadows, after.db.shadows)(name) == ShadowBy(t.shadows, t.db.shadows)(name)
  {
    LastEntryKept(t.shadows, t.db.shadows, SameName(row), ShadowName, name);
  }

  lemma RowAfterDelete<K>(users: seq<Line<PasswdRow>>, row: PasswdRow, key: PasswdRow -> K, k: K)
    requires forall u: PasswdRow :: Parsed(u) in users && key(u) == k ==> u.uid != row.uid
    requires k in IndexBy(users, key)
    ensures var dropped := Dropped(users, SameUid(row));
            k in IndexBy(dropped, key) && dropped[IndexBy(dropped, key)[k]].entry == users[IndexBy(users, key)[k]].entry
  {
    FindLastDropped(users, SameUid(row), key, k);
    LookupIsScan(users, key, k);
    LookupIsScan(Dropped(users, SameUid(row)), key, k);
  }

  lemma IdRefAfterDelete(ix: Indexes, t: Tables, row: PasswdRow, k: uint32)
    requires UsersSynced(ix, t) && k in ix.idToUser && k != row.uid
    requires forall u: PasswdRow :: Parsed(u) in t.db.users && u.name == row.name ==> u.uid == row.uid
    ensures var after := WithoutUser(t, row);
            && Matches(after.shadows, after.db.shadows) && k in IndexBy(after.db.users, UserId)
            && ix.idToUser[k].shadow
               == ShadowBy(after.shadows,
                           after.db.shadows)(after.db.users[IndexBy(after.db.users, UserId)[k]].entry.name)
  {
    var users := t.db.users;
    RowAfterDelete(users, row, UserId, k);
    var u := users[IndexBy(users, UserId)[k]].entry;
    assert Parsed(u) in users && u.uid == k;
    ShadowKept(t, row, u.name);
  }

  lemma IdIndexAfterDelete(ix: Indexes, t: Tables, row: PasswdRow)
    requires UsersSynced(ix, t) && Unambiguous(t.db.users, row)
    ensures var after := WithoutUser(t, row);
            Matches(after.shadows, after.db.shadows)
            && IsUserIndex(ix.idToUser - {row.uid}, after.users, after.db.users, UserId,
                           ShadowBy(after.shadows, after.db.shadows))
  {
    var m := ix.idToUser;
    assert PasswdOf(m - {row.uid}) == PasswdOf(m) - {row.uid};
    IdsAfterDelete(PasswdOf(m), t.users, t.db.users, row.uid, SameUid(row));
    KeepMatches(t.shadows, t.db.shadows, SameName(row));
    assert NameStaysRight(t.db.users, row, row.name);
    forall k | k in ix.idToUser && k != row.uid {
      IdRefAfterDelete(ix, t, row, k);
    }
  }

  lemma NamesAfterDelete(m: map<Bytes, Entry<PasswdRow>>, users: Lines<PasswdRow>, rows: seq<Line<PasswdRow>>,
                         row: PasswdRow)
    requires IsIndex(m, users, rows, UserName) && Distinct(users)
    ensures IsIndex(m - {row.name}, Keep(users, rows, SameUid(row)), Dropped(rows, SameUid(row)), UserName)
       <==> Unambiguous(rows, row)
  {
    KeepMatches(users, rows, SameUid(row));
    forall name
      ensures Find(m - {row.name}, name)
              == LastEntry(Keep(users, rows, SameUid(row)), Dropped(rows, SameUid(row)), UserName, name)
         <==> NameStaysRight(rows, row, name)
    {
      NameAfterDelete(m, users, rows, row, SameUid(row), name);
    }
  }

  lemma NameRefsAfterDelete(ix: Indexes, t: Tables, row: PasswdRow)
    requires UsersSynced(ix, t)
    ensures var after := WithoutUser(t, row);
            Matches(after.users, after.db.users) && Matches(after.shadows, after.db.shadows)
            && (IsIndex(PasswdOf(ix.nameToUser - {row.name}), after.users, after.db.users, UserName) ==>
                  HasShadows(ix.nameToUser - {row.name}, after.db.users, UserName,
                             ShadowBy(after.shadows, after.db.shadows)))
  {
    var m, after := ix.nameToUser, WithoutUser(t, row);
    KeepMatches(t.users, t.db.users, SameUid(row));
    KeepMatches(t.shadows, t.db.shadows, SameName(row));
    forall k | k in m && k != row.name ensures m[k].shadow == ShadowBy(after.shadows, after.db.shadows)(k) {
      ShadowKept(t, row, k);
    }
    if IsIndex(PasswdOf(m - {row.name}), after.users, after.db.users, UserName) {
      IndexPoints(PasswdOf(m - {row.name}), after.users, after.db.users, UserName);
    }
  }

  lemma NameIndexAfterDelete(ix: Indexes, t: Tables, row: PasswdRow)
    requires UsersSynced(ix, t) && Distinct(t.users)
    ensures var after := WithoutUser(t, row);
            Matches(after.shadows, after.db.shadows)
            && (IsUserIndex(ix.nameToUser - {row.name}, after.users, after.db.users, UserName,
                            ShadowBy(after.shadows, after.db.shadows))
                <==> Unambiguous(t.db.users, row))
  {
    NameRefsAfterDelete(ix, t, row);
    PasswdOfWithout(ix.nameToUser, row.name);
    NameEntriesAfterDelete(ix, t, row);
  }

  lemma PasswdOfWithout<K>(m: map<K, UserRef>, k: K)
    ensures PasswdOf(m - {k}) == PasswdOf(m) - {k}
  {
  }

  lemma NameEntriesAfterDelete(ix: Indexes, t: Tables, row: PasswdRow)
    requires UsersSynced(ix, t) && Distinct(t.users)
    ensures var after := WithoutUser(t, row);
            (IsIndex(PasswdOf(ix.nameToUser) - {row.name}, after.users, after.db.users, UserName)
             <==> Unambiguous(t.db.users, row))
  {
    NamesAfterDelete(PasswdOf(ix.nameToUser), t.users, t.db.users, row);
  }

  /** MAIN: the user indexes that `deleteRef` edits are those of a reload exactly when nothing else goes by the name
      or the id of the deleted user. */
  lemma DeletedUserIndexes(ix: Indexes, t: Tables, row: PasswdRow)
    requires UsersSynced(ix, t) && Distinct(t.users)
    ensures UsersSynced(WithoutRefs(ix, row), WithoutUser(t, row)) <==> Unambiguous(t.db.users, row)
  {
    NameIndexAfterDelete(ix, t, row);
    if Unambiguous(t.db.users, row) {
      IdIndexAfterDelete(ix, t, row);
    }
  }

  /** MAIN: the group indexes always are. */
  lemma DeletedUserGroups(ix: Indexes, t: Tables, row: PasswdRow)
    requires Synced(ix, t)
    ensures GroupsSynced(WithoutRefs(ix, row), WithoutUser(t, row))
  {
    IndexOfLeft(ix.nameToGroup, t.groups, t.db.groups, GroupName, row.name);
    IndexOfLeft(ix.idToGroup, t.groups, t.db.groups, GroupId, row.name);
    MembersLeft(ix.usernameToGroups, t.groups, t.db.groups, row.name);
  }

  // ------------------------------------------------------------ a created user

  /** The lists and the rows after a user was appended, apart from the groups. */
  ghost function WithUser(t: Tables, ref: UserRef, user: PasswdRow, shadow: Entry<ShadowRow>,
                          shadowRow: ShadowRow): Tables {
    Tables(t.users + [Parsed(ref.passwd)], t.groups, t.shadows + [Parsed(shadow)],
           Db(t.db.users + [Parsed(user)], t.db.groups, t.db.shadows + [Parsed(shadowRow)]))
  }

  lemma AppendedShadow<K(!new)>(m: map<K, UserRef>, t: Tables, key: PasswdRow -> K, shadow: Entry<ShadowRow>,
                                row: ShadowRow)
    requires Matches(t.shadows, t.db.shadows) && row.name !in IndexBy(t.db.users, UserName)
    requires HasShadows(m, t.db.users, key, ShadowBy(t.shadows, t.db.shadows))
    ensures HasShadows(m, t.db.users, key, ShadowBy(t.shadows + [Parsed(shadow)], t.db.shadows + [Parsed(row)]))
  {
    forall k | k in m
      ensures m[k].shadow
              == ShadowBy(t.shadows + [Parsed(shadow)],
                          t.db.shadows + [Parsed(row)])(t.db.users[IndexBy(t.db.users, key)[k]].entry.name)
    {
      var i := IndexBy(t.db.users, key)[k];
      IndexByIsLast(t.db.users, UserName, i);
      LastEntryAppend(t.shadows, t.db.shadows, Parsed(shadow), Parsed(row), ShadowName, t.db.users[i].entry.name);
    }
  }

  lemma AppendedIndex<K(!new)>(m: map<K, UserRef>, t: Tables, key: PasswdRow -> K, ref: UserRef, user: PasswdRow,
                               shadow: Entry<ShadowRow>, shadowRow: ShadowRow)
    requires Matches(t.shadows, t.db.shadows) && user.name !in IndexBy(t.db.users, UserName)
    requires ref.shadow == Some(shadow) && shadowRow.name == user.name
    requires IsUserIndex(m, t.users, t.db.users, key, ShadowBy(t.shadows, t.db.shadows))
    ensures var after := WithUser(t, ref, user, shadow, shadowRow);
            && Matches(after.shadows, after.db.shadows)
            && IsUserIndex(m[key(user) := ref], after.users, after.db.users, key,
                           ShadowBy(after.shadows, after.db.shadows))
  {
    var byShadow := ShadowBy(t.shadows + [Parsed(shadow)], t.db.shadows + [Parsed(shadowRow)]);
    AppendedShadow(m, t, key, shadow, shadowRow);
    LastEntryAppend(t.shadows, t.db.shadows, Parsed(shadow), Parsed(shadowRow), ShadowName, user.name);
    assert byShadow(user.name) == ref.shadow;
    UserIndexAppend(m, t.users, t.db.users, key, byShadow, Parsed(ref.passwd), Parsed(user));
  }

  /** MAIN: the user indexes that `Ensure` edits for a new user are those of a reload exactly when the user has got its
      uid as its gid, because it is the gid under which the index by id gets it. */
  lemma CreatedUserIndexes(ix: Indexes, t: Tables, ref: UserRef, user: PasswdRow, shadow: Entry<ShadowRow>,
                           shadowRow: ShadowRow)
    requires UsersSynced(ix, t) && user.name !in IndexBy(t.db.users, UserName) && ref.passwd !in Objects(t.users)
    requires ref.shadow == Some(shadow) && shadowRow.name == user.name
    ensures UsersSynced(ix.(nameToUser := ix.nameToUser[user.name := ref], idToUser := ix.idToUser[user.gid := ref]),
                        WithUser(t, ref, user, shadow, shadowRow))
       <==> user.uid == user.gid
  {
    var after := WithUser(t, ref, user, shadow, shadowRow);
    AppendedIndex(ix.nameToUser, t, UserName, ref, user, shadow, shadowRow);
    AppendedIndex(ix.idToUser, t, UserId, ref, user, shadow, shadowRow);
    if user.uid != user.gid {
      OldRefs(ix.idToUser, t, user.uid, ref);
      LastEntryAppend(t.users, t.db.users, Parsed(ref.passwd), Parsed(user), UserId, user.uid);
      var m := PasswdOf(ix.idToUser[user.gid := ref]);
      assert Find(m, user.uid) == Find(PasswdOf(ix.idToUser), user.uid);
      assert Find(m, user.uid) != LastEntry(after.users, after.db.users, UserId, user.uid);
    }
  }

  lemma OldRefs(m: map<uint32, UserRef>, t: Tables, uid: uint32, ref: UserRef)
    requires IsIndex(PasswdOf(m), t.users, t.db.users, UserId) && ref.passwd !in Objects(t.users)
    ensures Find(PasswdOf(m), uid) != Some(ref.passwd)
  {
    IndexPoints(PasswdOf(m), t.users, t.db.users, UserId);
    if uid in m {
      assert t.users[IndexBy(t.db.users, UserId)[uid]].entry in Objects(t.users);
    }
  }

  lemma MembershipsCount(groups: Lines<GroupRow>, rows: seq<Line<GroupRow>>, user: Bytes)
    requires Matches(groups, rows)
    ensures |MemberEntries(groups, rows, user)| == Sum(Counts(rows, user))
  {
    MembersListed(groups, rows, user);
    MemberRowsAt(rows, user);
    MemberRowsAre(rows, user);
  }

  /** MAIN: the index of memberships, which `Ensure` does not edit for a new user, is that of a reload exactly when the
      user joins no group. */
  lemma CreatedMemberIndex(m: map<Bytes, seq<Entry<GroupRow>>>, groups: Lines<GroupRow>, rows: seq<Line<GroupRow>>,
                           at: seq<nat>, name: Bytes)
    requires IsMemberIndex(m, groups, rows) && AllRows(rows, at)
    ensures IsMemberIndex(m, groups, JoinedGroups(rows, at, name)) <==> at == []
  {
    var after := JoinedGroups(rows, at, name);
    JoinedSum(rows, at, name);
    MembershipsCount(groups, rows, name);
    MembershipsCount(groups, after, name);
    assert Find(m, name) == IfAny(MemberEntries(groups, rows, name));
    if at == [] {
      forall u ensures MemberEntries(groups, after, u) == MemberEntries(groups, rows, u) {
        forall i | 0 <= i < |rows| ensures Counts(after, u)[i] == Counts(rows, u)[i] {
          assert rows[i].Parsed? ==> rows[i].entry.userNames + Times(name, 0) == rows[i].entry.userNames;
        }
        assert Counts(after, u) == Counts(rows, u);
      }
    } else {
      assert Find(m, name) != IfAny(MemberEntries(groups, after, name));
    }
  }

  // ------------------------------------------------------------ a changed user

  /** The lists and the rows after a user was changed whose name stayed, apart from the groups. */
  ghost function WithChanged(t: Tables, at: nat, user: PasswdRow, shadows: seq<Line<ShadowRow>>): Tables
    requires at < |t.db.users|
  {
    Tables(t.users, t.groups, t.shadows, Db(t.db.users[at := Parsed(user)], t.db.groups, shadows))
  }

  /** What a changed id takes to be followed: no other row has the former one, no later row has the new one. */
  ghost predicate IdIsFollowed(users: seq<Line<PasswdRow>>, at: nat, user: PasswdRow)
    requires IsRow(users, at)
  {
    var former := users[at].entry.uid;
    user.uid != former ==> !Elsewhere(Keys(users, UserId), at, former) && !Later(Keys(users, UserId), at, user.uid)
  }

  /** How the index by id is edited for a changed user. */
  ghost function MovedIds(m: map<uint32, UserRef>, ref: UserRef, former: PasswdRow,
                          user: PasswdRow): map<uint32, UserRef> {
    if former.uid != user.uid then (m - {former.uid})[user.uid := ref] else m
  }

  lemma PointsMoved<T, K(!new)>(m: map<K, Entry<T>>, lines: Lines<T>, ix: map<K, nat>, gone: K, k: K, at: nat,
                                e: Entry<T>)
    requires PointsTo(m, lines, ix) && at < |lines| && lines[at] == Parsed(e)
    ensures PointsTo(Moved(m, gone, k, e), lines, Moved(ix, gone, k, at))
  {
  }

  lemma MovedEntries<T, K(!new)>(m: map<K, Entry<T>>, lines: Lines<T>, rows: seq<Line<T>>, at: nat, e: Entry<T>, row: T,
                                 key: T -> K)
    requires IsIndex(m, lines, rows, key) && Distinct(lines) && IsRow(rows, at) && lines[at] == Parsed(e)
    requires key(row) != key(rows[at].entry)
    ensures IsIndex(Moved(m, key(rows[at].entry), key(row), e), lines, rows[at := Parsed(row)], key)
       <==> !Elsewhere(Keys(rows, key), at, key(rows[at].entry)) && !Later(Keys(rows, key), at, key(row))
  {
    var former, k, ix := key(rows[at].entry), key(row), IndexBy(rows, key);
    IndexPoints(m, lines, rows, key);
    PointsMoved(m, lines, ix, former, k, at, e);
    PointsIsIndex(Moved(m, former, k, e), lines, rows[at := Parsed(row)], key, Moved(ix, former, k, at));
    ReplacedIndex(rows, at, row, key);
  }

  lemma SameEntries<T, K(!new)>(m: map<K, Entry<T>>, lines: Lines<T>, rows: seq<Line<T>>, at: nat, row: T, key: T -> K)
    requires IsIndex(m, lines, rows, key) && Distinct(lines) && IsRow(rows, at) && key(row) == key(rows[at].entry)
    ensures IsIndex(m, lines, rows[at := Parsed(row)], key)
  {
    IndexPoints(m, lines, rows, key);
    SameKey(rows, at, row, key);
    PointsIsIndex(m, lines, rows[at := Parsed(row)], key, IndexBy(rows, key));
  }

  lemma PasswdOfMoved(m: map<uint32, UserRef>, ref: UserRef, former: PasswdRow, user: PasswdRow)
    ensures PasswdOf(MovedIds(m, ref, former, user))
         == if former.uid != user.uid then Moved(PasswdOf(m), former.uid, user.uid, ref.passwd) else PasswdOf(m)
  {
  }

  lemma MovedIdEntries(m: map<uint32, UserRef>, users: Lines<PasswdRow>, rows: seq<Line<PasswdRow>>, at: nat,
                       ref: UserRef, user: PasswdRow)
    requires IsIndex(PasswdOf(m), users, rows, UserId) && Distinct(users) && IsRow(rows, at)
    requires users[at] == Parsed(ref.passwd)
    ensures IsIndex(PasswdOf(MovedIds(m, ref, rows[at].entry, user)), users, rows[at := Parsed(user)], UserId)
       <==> IdIsFollowed(rows, at, user)
  {
    PasswdOfMoved(m, ref, rows[at].entry, user);
    if rows[at].entry.uid != user.uid {
      MovedEntries(PasswdOf(m), users, rows, at, ref.passwd, user, UserId);
    } else {
      SameEntries(PasswdOf(m), users, rows, at, user, UserId);
    }
  }

  lemma MovedIdShadows(m: map<uint32, UserRef>, users: Lines<PasswdRow>, rows: seq<Line<PasswdRow>>, at: nat,
                       ref: UserRef, user: PasswdRow,
                       byShadow: Bytes -> Option<Entry<ShadowRow>>)
    requires IsUserIndex(m, users, rows, UserId, byShadow) && Distinct(users) && IsRow(rows, at)
    requires users[at] == Parsed(ref.passwd)
    requires ref.shadow == byShadow(rows[at].entry.name) && user.name == rows[at].entry.name
    requires IdIsFollowed(rows, at, user)
    ensures HasShadows(MovedIds(m, ref, rows[at].entry, user), rows[at := Parsed(user)], UserId, byShadow)
  {
    var former, after := rows[at].entry, rows[at := Parsed(user)];
    if former.uid != user.uid {
      ReplacedIndex(rows, at, user, UserId);
      IndexByIsLast(rows, UserId, at);
    } else {
      SameKey(rows, at, user, UserId);
    }
  }

  lemma MovedNames(m: map<Bytes, UserRef>, users: Lines<PasswdRow>, rows: seq<Line<PasswdRow>>, at: nat, ref: UserRef,
                   user: PasswdRow,
                   byShadow: Bytes -> Option<Entry<ShadowRow>>)
    requires IsUserIndex(m, users, rows, UserName, byShadow) && Distinct(users) && IsRow(rows, at)
    requires users[at] == Parsed(ref.passwd)
    requires ref.shadow == byShadow(rows[at].entry.name) && user.name == rows[at].entry.name
    requires user.name in IndexBy(rows, UserName) && IndexBy(rows, UserName)[user.name] == at
    ensures IsUserIndex(m[user.name := ref], users, rows[at := Parsed(user)], UserName, byShadow)
  {
    SameKey(rows, at, user, UserName);
    IndexPoints(PasswdOf(m), users, rows, UserName);
    assert PasswdOf(m[user.name := ref]) == PasswdOf(m);
    SameEntries(PasswdOf(m), users, rows, at, user, UserName);
  }

  /** MAIN: the user indexes that `Ensure` edits for an existing user are those of a reload exactly when the user was
      found by its name, and a changed id is nobody else's. A user found by its id gets another name, under which the
      index by name does not have it. */
  lemma MovedUserIndexes(ix: Indexes, t: Tables, at: nat, ref: UserRef, req: UserReq, gid: uint32,
                         refs: seq<Entry<GroupRow>>)
    requires UsersSynced(ix, t) && Distinct(t.users) && req.name != [] && LookupUser(t.db.users, req) == Some(at)
    requires IsRow(t.db.users, at) && t.users[at] == Parsed(ref.passwd)
    requires ref.shadow == ShadowBy(t.shadows, t.db.shadows)(t.db.users[at].entry.name)
    ensures var former, user := t.db.users[at].entry, UpdatedUser(t.db.users[at].entry, req, gid);
            var after := WithChanged(t, at, user, RenamedShadow(t.db.shadows, former.name, req.name));
            (UsersSynced(MovedRefs(ix, ref, former, user, refs), after)
             <==> former.name == req.name && IdIsFollowed(t.db.users, at, user))
  {
    var former := t.db.users[at].entry;
    var user := UpdatedUser(former, req, gid);
    var rows, byShadow := t.db.users, ShadowBy(t.shadows, t.db.shadows);
    if former.name == req.name {
      assert RenamedShadow(t.db.shadows, former.name, req.name) == t.db.shadows;
      IndexByIsLast(rows, UserName, at);
      MovedNames(ix.nameToUser, t.users, rows, at, ref, user, byShadow);
      MovedIdEntries(ix.idToUser, t.users, rows, at, ref, user);
      if IdIsFollowed(rows, at, user) {
        MovedIdShadows(ix.idToUser, t.users, rows, at, ref, user, byShadow);
      }
    } else {
      NameIsMissing(ix, t, at, user);
    }
  }

  lemma NameIsMissing(ix: Indexes, t: Tables, at: nat, user: PasswdRow)
    requires UsersSynced(ix, t) && IsRow(t.db.users, at) && user.name !in IndexBy(t.db.users, UserName)
    ensures !IsIndex(PasswdOf(ix.nameToUser), t.users, t.db.users[at := Parsed(user)], UserName)
  {
    var after := t.db.users[at := Parsed(user)];
    assert Find(PasswdOf(ix.nameToUser), user.name) == LastEntry(t.users, t.db.users, UserName, user.name) == None;
    IndexByIsLast(after, UserName, at);
    assert LastEntry(t.users, after, UserName, user.name) != None;
  }

  // ------------------------------------------------- memberships of a changed user

  lemma {:induction false} PositionsCount(counts: seq<nat>, p: nat)
    ensures Occurs(Positions(counts), p) == if p < |counts| then counts[p] else 0
  {
    if counts != [] {
      var n := |counts| - 1;
      PositionsCount(counts[..n], p);
      assert Positions(counts) == Positions(counts[..n]) + Times(n, counts[n]);
      OccursTimes(Positions(counts[..n]), n, counts[n], p);
    }
  }

  lemma {:induction false} OccursTimes(refs: seq<nat>, at: nat, n: nat, p: nat)
    ensures Occurs(refs + Times(at, n), p) == Occurs(refs, p) + if p == at then n else 0
  {
    if n == 0 {
      assert refs + Times(at, 0) == refs;
    } else {
      OccursTimes(refs, at, n - 1, p);
      var all := refs + Times(at, n);
      assert all[..|all| - 1] == refs + Times(at, n - 1) && all[|all| - 1] == at;
    }
  }

  ghost predicate InFileOrder(refs: seq<nat>) { forall j, k :: 0 <= j < k < |refs| ==> refs[j] <= refs[k] }

  ghost predicate SameOccurs(a: seq<nat>, b: seq<nat>) { forall p :: Occurs(a, p) == Occurs(b, p) }

  lemma OccursLast(refs: seq<nat>)
    requires refs != []
    ensures Occurs(refs, refs[|refs| - 1]) > 0
  {
  }

  lemma LastIsIn(a: seq<nat>, b: seq<nat>)
    requires a != [] && InFileOrder(b) && SameOccurs(a, b)
    ensures b != [] && a[|a| - 1] <= b[|b| - 1]
  {
    var x := a[|a| - 1];
    OccursLast(a);
    OccursIn(b, x);
    assert Occurs(a, x) == Occurs(b, x);
    var j :| 0 <= j < |b| && b[j] == x;
  }

  lemma SameFront(a: seq<nat>, b: seq<nat>)
    requires a != [] && b != [] && SameOccurs(a, b) && a[|a| - 1] == b[|b| - 1]
    ensures SameOccurs(a[..|a| - 1], b[..|b| - 1])
  {
    var front, rest := a[..|a| - 1], b[..|b| - 1];
    forall p ensures Occurs(front, p) == Occurs(rest, p) {
      assert Occurs(a, p) == Occurs(b, p);
    }
  }

  /** Positions in order are known by how often each occurs. */
  lemma {:induction false} InOrderUnique(a: seq<nat>, b: seq<nat>)
    requires InFileOrder(a) && InFileOrder(b) && SameOccurs(a, b)
    ensures a == b
    decreases |a|
  {
    if a != [] {
      LastIsIn(a, b);
      LastIsIn(b, a);
      SameFront(a, b);
      InOrderUnique(a[..|a| - 1], b[..|b| - 1]);
      assert a == a[..|a| - 1] + [a[|a| - 1]];
      assert b == b[..|b| - 1] + [b[|b| - 1]];
    } else if b != [] {
      LastIsIn(b, a);
    }
  }

  /** What the wanted groups have to be for the user's new memberships to be those of a reload: in the order of the
      file, each as often as it lists the user, and the only ones in which the user is. */
  ghost predicate WantedAsListed(lines: seq<Line<GroupRow>>, refs: seq<nat>, name: Bytes)
    requires AllRows(lines, refs)
  {
    && refs != [] && InFileOrder(refs) && AsCounted(refs, Counts(lines, name))
    && forall i :: 0 <= i < |lines| && i !in refs ==> !Remains(lines, refs, name, i)
  }

  lemma MaskedCount(c: seq<nat>, refs: seq<nat>, p: nat)
    requires forall j :: 0 <= j < |refs| ==> refs[j] < |c|
    ensures Occurs(Positions(Masked(refs, c)), p) == if p < |c| && p in refs then AtLeastOne(c[p]) else 0
    ensures p !in refs ==> Occurs(refs, p) == 0
  {
    PositionsCount(Masked(refs, c), p);
    OccursIn(refs, p);
  }

  /** Each position occurs as often as the user is to be listed there. */
  ghost predicate AsCounted(refs: seq<nat>, c: seq<nat>)
    requires forall j :: 0 <= j < |refs| ==> refs[j] < |c|
  {
    forall j :: 0 <= j < |refs| ==> Occurs(refs, refs[j]) == AtLeastOne(c[refs[j]])
  }

  lemma CountsAgree(c: seq<nat>, refs: seq<nat>, p: nat)
    requires forall j :: 0 <= j < |refs| ==> refs[j] < |c|
    requires AsCounted(refs, c)
    ensures Occurs(refs, p) == Occurs(Positions(Masked(refs, c)), p)
  {
    MaskedCount(c, refs, p);
    if p in refs {
      var j :| 0 <= j < |refs| && refs[j] == p;
      assert Occurs(refs, refs[j]) == AtLeastOne(c[refs[j]]);
    }
  }

  lemma MaskedPositions(c: seq<nat>, refs: seq<nat>)
    requires forall j :: 0 <= j < |refs| ==> refs[j] < |c|
    ensures Positions(Masked(refs, c)) == refs <==> InFileOrder(refs) && AsCounted(refs, c)
  {
    var positions := Positions(Masked(refs, c));
    if positions == refs {
      PositionsInOrder(Masked(refs, c));
      forall j | 0 <= j < |refs| ensures Occurs(refs, refs[j]) == AtLeastOne(c[refs[j]]) {
        MaskedCount(c, refs, refs[j]);
      }
    }
    if InFileOrder(refs) && AsCounted(refs, c) {
      PositionsInOrder(Masked(refs, c));
      forall p ensures Occurs(refs, p) == Occurs(positions, p) {
        CountsAgree(c, refs, p);
      }
      InOrderUnique(refs, positions);
    }
  }

  lemma PositionsInOrder(counts: seq<nat>)
    ensures InFileOrder(Positions(counts))
  {
    PositionsAre(counts);
  }

  lemma AtUnique(groups: Lines<GroupRow>, a: seq<Entry<GroupRow>>, b: seq<Entry<GroupRow>>, v: seq<nat>, w: seq<nat>)
    requires Distinct(groups) && At(groups, a, v) && At(groups, b, w)
    ensures a == b <==> v == w
  {
    if a == b {
      forall j | 0 <= j < |v| ensures v[j] == w[j] {
        assert groups[v[j]] == Parsed(a[j]) && groups[w[j]] == Parsed(a[j]);
      }
    }
  }

  /** Other users' listings stay, and the former name is in no group. */
  lemma RegroupedOthers(lines: seq<Line<GroupRow>>, refs: seq<nat>, former: Bytes, name: Bytes, u: Bytes)
    requires u != name
    ensures forall i :: 0 <= i < |lines| ==>
              Counts(RegroupedGroups(lines, refs, former, name), u)[i] == if u == former then 0 else Counts(lines, u)[i]
  {
    var after := RegroupedGroups(lines, refs, former, name);
    forall i | 0 <= i < |lines| && lines[i].Parsed?
      ensures Counts(after, u)[i] == if u == former then 0 else Counts(lines, u)[i]
    {
      var names := lines[i].entry.userNames;
      var members := if former == name then names else Without(names, former);
      CountWithout(names, former, u);
      CountWithout(members, name, u);
      CountConcat(members, [name], u);
    }
  }

  /** MAIN: the index of memberships that `Ensure` edits for an existing user is that of a reload exactly when the
      wanted groups are asked for in the order of the file, each as often as it lists the user, and no other group with
      the gid of one keeps listing it. */
  lemma MovedMemberIndex(m: map<Bytes, seq<Entry<GroupRow>>>, groups: Lines<GroupRow>, lines: seq<Line<GroupRow>>,
                         refs: seq<Entry<GroupRow>>, at: seq<nat>, former: Bytes, name: Bytes)
    requires IsMemberIndex(m, groups, lines) && Distinct(groups) && At(groups, refs, at)
    ensures IsMemberIndex((if former != name then m - {former} else m)[name := refs], groups,
                          RegroupedGroups(lines, at, former, name))
       <==> AllRows(lines, at) && WantedAsListed(lines, at, name)
  {
    assert AllRows(lines, at) by {
      assert forall j :: 0 <= j < |at| ==> groups[at[j]].Parsed?;
    }
    MovedOthers(m, groups, lines, refs, at, former, name);
    MovedOwn(groups, lines, refs, at, former, name);
    var moved := (if former != name then m - {former} else m)[name := refs];
    assert Find(moved, name) == Some(refs);
  }

  lemma MovedOthers(m: map<Bytes, seq<Entry<GroupRow>>>, groups: Lines<GroupRow>, lines: seq<Line<GroupRow>>,
                    refs: seq<Entry<GroupRow>>, at: seq<nat>, former: Bytes, name: Bytes)
    requires IsMemberIndex(m, groups, lines)
    ensures forall u :: u != name ==>
              Find((if former != name then m - {former} else m)[name := refs], u)
              == IfAny(MemberEntries(groups, RegroupedGroups(lines, at, former, name), u))
  {
    var after := RegroupedGroups(lines, at, former, name);
    forall u | u != name
      ensures Find((if former != name then m - {former} else m)[name := refs], u)
              == IfAny(MemberEntries(groups, after, u))
    {
      RegroupedOthers(lines, at, former, name, u);
      if u == former {
        NoMemberships(groups, Counts(after, u));
      } else {
        assert Counts(after, u) == Counts(lines, u);
        assert Find(m, u) == IfAny(MemberEntries(groups, lines, u));
      }
    }
  }

  lemma MovedOwn(groups: Lines<GroupRow>, lines: seq<Line<GroupRow>>, refs: seq<Entry<GroupRow>>, at: seq<nat>,
                 former: Bytes, name: Bytes)
    requires Matches(groups, lines) && Distinct(groups) && At(groups, refs, at) && AllRows(lines, at)
    ensures Some(refs) == IfAny(MemberEntries(groups, RegroupedGroups(lines, at, former, name), name))
       <==> WantedAsListed(lines, at, name)
  {
    var after := RegroupedGroups(lines, at, former, name);
    RegroupedCounts(lines, at, former, name);
    FinalPositions(lines, at, name);
    MembersListed(groups, after, name);
    AtUnique(groups, refs, MemberEntries(groups, after, name), at, Positions(Counts(after, name)));
  }

  lemma FinalPositions(lines: seq<Line<GroupRow>>, at: seq<nat>, name: Bytes)
    requires AllRows(lines, at)
    ensures at != [] && Positions(FinalCounts(lines, at, name)) == at <==> WantedAsListed(lines, at, name)
  {
    var c, final := Counts(lines, name), FinalCounts(lines, at, name);
    if i :| 0 <= i < |lines| && i !in at && Remains(lines, at, name, i) {
      CountPositive(lines[i].entry.userNames, name);
      PositionsCount(final, i);
      OccursIn(at, i);
    } else {
      assert final == Masked(at, c);
      MaskedPositions(c, at);
    }
  }
}
