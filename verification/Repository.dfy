/** The repository object: entries shared between lists and indexes, edited in place, loaded from and saved to files. */
module Repository {
  import opened Bytes
  import opened ColonCodec
  import opened UnixRows
  import opened UserDb
  import opened UserDbLaws
  import opened Entries
  import opened Regrouping
  import opened Indexing
  import opened IndexLaws

  class EtcColonRepository {
    const cfg: Config

    /** The bytes of the three files. */
    var files: Files

    var users: Lines<PasswdRow>
    var groups: Lines<GroupRow>
    var shadows: Lines<ShadowRow>

    var nameToUser: map<Bytes, UserRef>
    var idToUser: map<uint32, UserRef>
    var nameToGroup: map<Bytes, Entry<GroupRow>>
    var idToGroup: map<uint32, Entry<GroupRow>>
    var usernameToGroups: map<Bytes, seq<Entry<GroupRow>>>

    constructor (cfg: Config, files: Files)
      ensures this.cfg == cfg && this.files == files
    {
      this.cfg, this.files := cfg, files;
      users, groups, shadows := [], [], [];
      nameToUser, idToUser, nameToGroup, idToGroup, usernameToGroups := map[], map[], map[], map[], map[];
    }

    // --------------------------------------------------------------- abstraction

    ghost predicate Separate()
      reads this
    {
      Distinct(users) && Distinct(groups) && Distinct(shadows)
    }

    ghost function Value(): Db
      reads this, Objects(users), Objects(groups), Objects(shadows)
    {
      Db(Rows(users), Rows(groups), Rows(shadows))
    }

    ghost function Index(): Indexes
      reads this
    {
      Indexes(nameToUser, idToUser, nameToGroup, idToGroup, usernameToGroups)
    }

    /** The lists hold these rows. */
    ghost predicate Holds(db: Db)
      reads this, Objects(users), Objects(groups), Objects(shadows)
    {
      Rows(users) == db.users && Rows(groups) == db.groups && Rows(shadows) == db.shadows
    }

    /** The repository is none of its entries, and entries of different kinds are different objects. */
    lemma Apart()
      ensures forall e :: e in Objects(users) ==> e as object != this
      ensures forall e :: e in Objects(groups) ==> e as object != this
      ensures forall e :: e in Objects(shadows) ==> e as object != this
      ensures forall e :: e in Objects(users) ==> e as object !in Objects(groups)
      ensures forall e :: e in Objects(shadows) ==> e as object !in Objects(groups)
    {
    }

    // ------------------------------------------------------------------- loading

    method LoadPasswd() returns (ok: bool, ghost rows: seq<Line<PasswdRow>>)
      modifies this`users
      ensures var r := DecodeFile(PasswdCodec(cfg.allowBadName), files.passwd, cfg.allowBadLine);
              ok == r.Some? && (ok ==> r == Some(rows))
      ensures ok ==> Rows(users) == rows && Distinct(users) && fresh(Objects(users))
    {
      rows := [];
      var r := DecodeEntries(PasswdCodec(cfg.allowBadName), files.passwd, cfg.allowBadLine);
      if r.None? { return false, []; }
      users := Allocate(r.value);
      return true, r.value;
    }

    method LoadGroup() returns (ok: bool, ghost rows: seq<Line<GroupRow>>)
      modifies this`groups
      ensures var r := DecodeFile(GroupCodec(cfg.allowBadName), files.group, cfg.allowBadLine);
              ok == r.Some? && (ok ==> r == Some(rows))
      ensures ok ==> Rows(groups) == rows && Distinct(groups) && fresh(Objects(groups))
    {
      var r := DecodeEntries(GroupCodec(cfg.allowBadName), files.group, cfg.allowBadLine);
      if r.None? { return false, []; }
      groups := Allocate(r.value);
      return true, r.value;
    }

    method LoadShadow() returns (ok: bool, ghost rows: seq<Line<ShadowRow>>)
      modifies this`shadows
      ensures var r := DecodeFile(ShadowCodec(cfg.allowBadName), files.shadow, cfg.allowBadLine);
              ok == r.Some? && (ok ==> r == Some(rows))
      ensures ok ==> Rows(shadows) == rows && Distinct(shadows) && fresh(Objects(shadows))
    {
      var r := DecodeEntries(ShadowCodec(cfg.allowBadName), files.shadow, cfg.allowBadLine);
      if r.None? { return false, []; }
      shadows := Allocate(r.value);
      return true, r.value;
    }

    method RebuildGroupIndexes(ghost db: Db)
      requires Holds(db)
      modifies this`nameToGroup, this`idToGroup, this`usernameToGroups
      ensures Holds(db) && GroupsSynced(Index(), Tables(users, groups, shadows, db))
    {
      Apart();
      var byName, byId, byUser := LoadGroupsRefs(groups);
      nameToGroup, idToGroup, usernameToGroups := byName, byId, byUser;
    }

    method RebuildUserIndexes(ghost db: Db)
      requires Holds(db)
      modifies this`nameToUser, this`idToUser
      ensures Holds(db) && UsersSynced(Index(), Tables(users, groups, shadows, db))
    {
      Apart();
      var byName, byId := LoadUserIndexes(users, shadows, db.users, db.shadows);
      nameToUser, idToUser := byName, byId;
    }

    method RebuildIndexes(ghost db: Db)
      requires Holds(db)
      modifies this`nameToUser, this`idToUser, this`nameToGroup, this`idToGroup, this`usernameToGroups
      ensures Holds(db) && Synced(Index(), Tables(users, groups, shadows, db))
    {
      RebuildGroupIndexes(db);
      RebuildUserIndexes(db);
    }

    method LoadEntries() returns (ok: bool, ghost db: Db)
      modifies this`users, this`groups, this`shadows
      ensures ok == Load(files, cfg).Some?
      ensures ok ==> Load(files, cfg) == Some(db) && Separate() && Holds(db)
      ensures ok ==> fresh(Objects(users)) && fresh(Objects(groups)) && fresh(Objects(shadows))
    {
      db := Db([], [], []);
      ghost var userRows, groupRows, shadowRows;
      ok, userRows := LoadPasswd();
      if !ok { return; }
      Apart();
      ok, groupRows := LoadGroup();
      if !ok { return; }
      Apart();
      ok, shadowRows := LoadShadow();
      if !ok { return; }
      db := Db(userRows, groupRows, shadowRows);
    }

    /** `openAndLoad`: new entries for all lines and new indexes, or, after an error, no more than new entries. */
    method OpenAndLoad() returns (ok: bool, ghost db: Db)
      modifies this
      ensures files == old(files) && ok == Load(files, cfg).Some?
      ensures ok ==> Load(files, cfg) == Some(db) && Separate() && Holds(db)
      ensures ok ==> Synced(Index(), Tables(users, groups, shadows, db))
      ensures ok ==> fresh(Objects(users)) && fresh(Objects(groups)) && fresh(Objects(shadows))
      ensures !ok ==> unchanged(this`nameToUser, this`idToUser, this`nameToGroup, this`idToGroup, this`usernameToGroups)
    {
      ok, db := LoadEntries();
      if ok {
        RebuildIndexes(db);
      }
    }

    // ------------------------------------------------------------------- groups

    /** The user entries and their rows, apart from the groups. */
    ghost predicate HoldsUsers(db: Db)
      reads this, Objects(users), Objects(shadows)
    {
      Rows(users) == db.users && Rows(shadows) == db.shadows && Distinct(users) && Distinct(shadows)
    }

    /** The group entries and their indexes are this table, and every user's groups are those that list it. */
    ghost predicate HoldsGroups(t: GroupTable)
      reads this, Objects(groups)
    {
      Rows(groups) == t.lines && GroupsIndexed(nameToGroup, idToGroup, usernameToGroups, groups, t)
    }

    lemma LoadedGroups(db: Db)
      requires Separate() && Holds(db) && GroupsSynced(Index(), Tables(users, groups, shadows, db))
      ensures HoldsGroups(LoadedTable(db.groups))
    {
      IndexPoints(nameToGroup, groups, db.groups, GroupName);
      IndexPoints(idToGroup, groups, db.groups, GroupId);
    }

    /** `lookupGroupByRequirement`. */
    method LookupGroupRef(req: GroupReq, ghost t: GroupTable) returns (found: Option<Entry<GroupRow>>)
      ensures HoldsGroups(t) ==>
                match LookupGroup(t, req)
                case None => found == None
                case Some(at) => at < |groups| && found.Some? && groups[at] == Parsed(found.value)
    {
      if HoldsGroups(t) {
        LookupPoints(nameToGroup, idToGroup, groups, t, req);
      }
      if req.name != [] && req.name in nameToGroup { return Some(nameToGroup[req.name]); }
      if req.gid.Some? && req.gid.value in idToGroup { return Some(idToGroup[req.gid.value]); }
      return None;
    }

    method CreateGroup(req: GroupReq, ghost t: GroupTable, ghost db: Db) returns (ref: Entry<GroupRow>)
      requires HoldsGroups(t) && HoldsUsers(db)
      modifies this`groups, this`nameToGroup, this`idToGroup
      ensures HoldsUsers(db)
      ensures fresh(ref) && groups == old(groups) + [Parsed(ref)]
      ensures HoldsGroups(WithNewGroup(t, NewGroup(req, NextGid(t.lines))))
    {
      var highest := FindHighest(groups, GroupId, IsNoGroup);
      var row := NewGroup(req, NextId(highest));
      ref := new Entry(row);
      assert ref !in Objects(groups) by {
        assert forall e :: e in Objects(groups) ==> allocated(e);
      }
      CreatedIndexed(nameToGroup, idToGroup, usernameToGroups, groups, t, ref, row);
      AppendGroup(ref, Db(db.users, t.lines, db.shadows));
    }

    method AppendGroup(ref: Entry<GroupRow>, ghost db: Db)
      requires Rows(groups) == db.groups && HoldsUsers(db)
      modifies this`groups, this`nameToGroup, this`idToGroup
      ensures HoldsUsers(db) && groups == old(groups) + [Parsed(ref)] && Rows(groups) == db.groups + [Parsed(ref.row)]
      ensures nameToGroup == old(nameToGroup)[ref.row.name := ref] && idToGroup == old(idToGroup)[ref.row.gid := ref]
    {
      Apart();
      RowsAppend(groups, Parsed(ref));
      groups := groups + [Parsed(ref)];
      nameToGroup := nameToGroup[ref.row.name := ref];
      idToGroup := idToGroup[ref.row.gid := ref];
    }

    method UpdateGroup(ref: Entry<GroupRow>, req: GroupReq, ghost t: GroupTable, ghost at: nat, ghost db: Db)
      requires HoldsGroups(t) && HoldsUsers(db) && at < |groups| && groups[at] == Parsed(ref)
      modifies this`nameToGroup, this`idToGroup, ref
      ensures HoldsUsers(db)
      ensures HoldsGroups(WithUpdatedGroup(t, at, UpdatedGroup(t.lines[at].entry, req)))
    {
      var former := ref.row;
      var row := UpdatedGroup(former, req);
      assert Rows(groups)[at] == Parsed(former);
      UpdatedIndexed(nameToGroup, idToGroup, usernameToGroups, groups, t, at, row);
      SetGroup(ref, row, t.lines, at, db);
      MoveGroup(ref, former, row, Db(db.users, Rows(groups), db.shadows));
    }

    method SetGroup(ref: Entry<GroupRow>, row: GroupRow, ghost lines: seq<Line<GroupRow>>, ghost at: nat, ghost db: Db)
      requires Rows(groups) == lines && Distinct(groups) && at < |groups| && groups[at] == Parsed(ref) && HoldsUsers(db)
      modifies ref
      ensures Rows(groups) == lines[at := Parsed(row)] && HoldsUsers(db)
    {
      SetRow(ref, row, groups, lines, at);
    }

    /** How the group indexes follow a changed group: what is deleted from the index by gid is the new gid. */
    method MoveGroup(ref: Entry<GroupRow>, former: GroupRow, row: GroupRow, ghost db: Db)
      requires Rows(groups) == db.groups && HoldsUsers(db)
      modifies this`nameToGroup, this`idToGroup
      ensures Rows(groups) == db.groups && HoldsUsers(db)
      ensures nameToGroup == if former.name != row.name then (old(nameToGroup) - {former.name})[row.name := ref]
              else old(nameToGroup)
      ensures idToGroup == if former.gid != row.gid then old(idToGroup)[row.gid := ref] else old(idToGroup)
    {
      Apart();
      if former.name != row.name {
        nameToGroup := nameToGroup - {former.name};
        nameToGroup := nameToGroup[row.name := ref];
      }
      if former.gid != row.gid {
        idToGroup := idToGroup - {row.gid};
        DeleteThenSet(old(idToGroup), row.gid, ref);
        idToGroup := idToGroup[row.gid := ref];
      }
    }

    /** `ensureGroup` on a requirement that has got its defaults. */
    method EnsureGroupRef(req: GroupReq, opts: Opts, ghost t: GroupTable, ghost db: Db)
      returns (r: Result<Entry<GroupRow>>, outcome: Outcome)
      requires HoldsGroups(t) && HoldsUsers(db)
      modifies this`groups, this`nameToGroup, this`idToGroup, Objects(groups)
      ensures HoldsUsers(db)
      ensures old(groups) <= groups && (forall e :: e in Objects(groups) ==> e in old(Objects(groups)) || fresh(e))
      ensures match EnsureGroup(t, req, opts)
              case Err(e) => r == Err(e) && HoldsGroups(t) && groups == old(groups)
              case Ok(s) => HoldsGroups(s.table) && outcome == s.outcome && s.at < |groups| && r.Ok?
                            && groups[s.at] == Parsed(r.value)
    {
      outcome := Unchanged;
      var existing := LookupGroupRef(req, t);
      match existing
      case Some(ref) =>
        ghost var at := LookupGroup(t, req).value;
        assert t.lines[at] == Parsed(ref.row);
        if GroupFulfils(req, ref.row) { return Ok(ref), Unchanged; }
        if !opts.modifyAllowed { return Err(GroupDoesNotFulfil), Unchanged; }
        assert ref in Objects(groups);
        UpdateGroup(ref, req, t, at, db);
        return Ok(ref), Modified;
      case None =>
        if !opts.createAllowed { return Err(NoSuchGroup), Unchanged; }
        if !opts.modifyAllowed { return Err(GroupDoesNotFulfil), Unchanged; }
        var ref := CreateGroup(req, t, db);
        RowsAppend(old(groups), Parsed(ref));
        return Ok(ref), Created;
    }

    /** `ensureGroups`. */
    method EnsureGroupRefs(reqs: seq<GroupReq>, opts: Opts, ghost t: GroupTable, ghost db: Db)
      returns (r: Result<seq<Entry<GroupRow>>>)
      requires HoldsGroups(t) && HoldsUsers(db)
      modifies this`groups, this`nameToGroup, this`idToGroup, Objects(groups)
      ensures HoldsUsers(db)
      ensures old(groups) <= groups && (forall e :: e in Objects(groups) ==> e in old(Objects(groups)) || fresh(e))
      ensures var s := EnsureGroups(t, reqs, opts);
              HoldsGroups(s.table) &&
              match s.refs
              case Err(e) => r == Err(e)
              case Ok(at) => r.Ok? && At(groups, r.value, at)
    {
      var refs := [];
      ghost var at: seq<nat>, u := [], t;
      for i := 0 to |reqs|
        invariant HoldsUsers(db) && HoldsGroups(u) && EnsureGroups(t, reqs[..i], opts) == GroupsStep(u, Ok(at))
        invariant At(groups, refs, at)
        invariant old(groups) <= groups && (forall e :: e in Objects(groups) ==> e in old(Objects(groups)) || fresh(e))
      {
        EnsureGroupsStep(t, reqs, i, opts);
        ghost var before := groups;
        var ref, _ := EnsureGroupRef(GroupOrDefaults(reqs[i], []), opts, u, db);
        match ref
        case Err(e) =>
          EnsureGroupsStop(t, reqs, i + 1, opts);
          return Err(e);
        case Ok(entry) =>
          ghost var s := EnsureGroup(u, GroupOrDefaults(reqs[i], []), opts).value;
          AtGrown(before, groups, refs, at, entry, s.at);
          u, at, refs := s.table, at + [s.at], refs + [entry];
      }
      assert reqs[..|reqs|] == reqs;
      r := Ok(refs);
    }

    // -------------------------------------------------- is a requirement fulfilled

    /** The lists hold these rows, and the indexes are those of a reload. */
    ghost predicate InSync(db: Db)
      reads this, Objects(users), Objects(groups), Objects(shadows)
    {
      Separate() && Holds(db) && Synced(Index(), Tables(users, groups, shadows, db))
    }

    /** The row and the entries of the user at a position. */
    ghost predicate IsRef(ref: UserRef, db: Db, at: nat)
      reads this
    {
      && Matches(shadows, db.shadows) && IsRow(db.users, at) && at < |users| && users[at] == Parsed(ref.passwd)
      && ref.shadow == LastEntry(shadows, db.shadows, ShadowName, db.users[at].entry.name)
    }

    ghost predicate IsFound(found: Option<UserRef>, db: Db, req: UserReq)
      reads this
    {
      match LookupUser(db.users, req)
      case None => found == None
      case Some(at) => found.Some? && IsRef(found.value, db, at)
    }

    lemma FoundRow(found: Option<UserRef>, db: Db, req: UserReq)
      requires Rows(users) == db.users && IsFound(found, db, req)
      ensures FindUser(db.users, req) == if found.Some? then Some(found.value.passwd.row) else None
    {
      LookupUserIsScan(db.users, req);
    }

    /** `lookupByRequirement`. */
    method LookupUserRef(req: UserReq, ghost db: Db) returns (found: Option<UserRef>)
      ensures InSync(db) ==> IsFound(found, db, req)
    {
      if InSync(db) {
        IndexPoints(PasswdOf(nameToUser), users, db.users, UserName);
        IndexPoints(PasswdOf(idToUser), users, db.users, UserId);
      }
      if req.name != [] && req.name in nameToUser { return Some(nameToUser[req.name]); }
      if req.uid.Some? && req.uid.value in idToUser { return Some(idToUser[req.uid.value]); }
      return None;
    }

    method PrimaryFits(req: GroupReq, gid: uint32, ghost db: Db) returns (ok: bool)
      ensures InSync(db) ==>
                ok == match FindGroup(db.groups, req)
                      case None => false
                      case Some(group) => GroupFulfils(req, group) && group.gid == gid
    {
      if InSync(db) {
        LookupGroupIsScan(db.groups, req);
        LoadedGroups(db);
      }
      var group := LookupGroupRef(req, LoadedTable(db.groups));
      ok := group.Some? && GroupFulfils(req, group.value.row) && group.value.row.gid == gid;
    }

    method MembershipsFit(name: Bytes, reqs: seq<GroupReq>, ghost db: Db) returns (ok: bool)
      ensures InSync(db) ==> ok == GroupsMatch(MemberRows(db.groups, name), reqs)
    {
      var refs := if name in usernameToGroups then usernameToGroups[name] else [];
      ok := RefsMatch(refs, reqs);
      if InSync(db) {
        assert Find(usernameToGroups, name) == IfAny(MemberEntries(groups, db.groups, name));
        RowsMatch(groups, refs, db.groups, name, reqs);
      }
    }

    /** `isRequirementFulfilled`: on indexes that are up to date it tells what the files say. */
    method IsFulfilled(req: UserReq, ghost db: Db) returns (existing: Option<UserRef>, fulfilled: bool)
      ensures InSync(db) ==> fulfilled == Fulfilled(db, req)
      ensures InSync(db) ==> IsFound(existing, db, req)
    {
      existing := LookupUserRef(req, db);
      if InSync(db) {
        FoundRow(existing, db, req);
      }
      if existing.None? { return existing, false; }
      var user := existing.value.passwd.row;
      if !UserFulfils(req, user) { return existing, false; }
      var fits := PrimaryFits(req.group, user.gid, db);
      if !fits { return existing, false; }
      fulfilled := MembershipsFit(user.name, req.groups, db);
    }

    // ------------------------------------------------------------------- Ensure

    /** The primary group of a user: its gid is read at once, before the other groups are ensured. */
    method EnsurePrimary(greq: GroupReq, opts: Opts, ghost t: GroupTable, ghost db: Db) returns (r: Result<uint32>)
      requires HoldsGroups(t) && HoldsUsers(db)
      modifies this`groups, this`nameToGroup, this`idToGroup, Objects(groups)
      ensures HoldsUsers(db)
      ensures (forall e :: e in Objects(groups) ==> e in old(Objects(groups)) || fresh(e))
      ensures match EnsureGroup(t, greq, opts)
              case Err(e) => r == Err(e)
              case Ok(s) => HoldsGroups(s.table) && IsRow(s.table.lines, s.at) && r == Ok(s.table.lines[s.at].entry.gid)
    {
      var primary, _ := EnsureGroupRef(greq, opts, t, db);
      match primary
      case Err(e) =>
        return Err(e);
      case Ok(ref) =>
        assert Rows(groups)[EnsureGroup(t, greq, opts).value.at] == Parsed(ref.row);
        return Ok(ref.row.gid);
    }

    /** All groups of a requirement: the gid of the primary one and the entries of the others. */
    method EnsureAllGroups(req: UserReq, opts: Opts, ghost db: Db) returns (r: Result<(uint32, seq<Entry<GroupRow>>)>)
      requires HoldsGroups(LoadedTable(db.groups)) && HoldsUsers(db)
      modifies this`groups, this`nameToGroup, this`idToGroup, Objects(groups)
      ensures HoldsUsers(db) && (forall e :: e in Objects(groups) ==> e in old(Objects(groups)) || fresh(e))
      ensures match AllGroups(db, req, opts)
              case Err(e) => r == Err(e)
              case Ok(all) => r.Ok? && r.value.0 == all.gid && HoldsGroups(all.table) && At(groups, r.value.1, all.refs)
    {
      ghost var t, greq := LoadedTable(db.groups), GroupOrDefaults(req.group, req.name);
      var primary := EnsurePrimary(GroupOrDefaults(req.group, req.name), opts, t, db);
      if primary.Err? { return Err(primary.error); }
      ghost var s := EnsureGroup(t, greq, opts).value;
      AllGroupsAre(db, req, opts, s);
      var refs := EnsureGroupRefs(req.groups, opts, s.table, db);
      match refs
      case Err(e) => r := Err(e);
      case Ok(entries) => r := Ok((primary.value, entries));
    }

    /** The branch of `Ensure` for a user that does not exist. The index by id gets the new user under its gid, and
        the index of memberships does not get it at all. */
    method CreateUser(req: UserReq, gid: uint32, refs: seq<Entry<GroupRow>>, today: uint32,
                      ghost db: Db, ghost lines: seq<Line<GroupRow>>, ghost at: seq<nat>) returns (ref: UserRef)
      requires HoldsUsers(db) && Distinct(groups) && Rows(groups) == lines && At(groups, refs, at)
      modifies this`users, this`shadows, this`nameToUser, this`idToUser, Objects(groups)
      ensures Holds(CreatedDb(db, req, gid, lines, at, today))
      ensures ref.shadow.Some? && users == old(users) + [Parsed(ref.passwd)]
      ensures shadows == old(shadows) + [Parsed(ref.shadow.value)]
      ensures nameToUser == old(nameToUser)[NewUser(req, gid, NextUid(db.users)).name := ref]
      ensures idToUser == old(idToUser)[gid := ref]
    {
      Apart();
      var highest := FindHighest(users, UserId, IsNobody);
      var user := NewUser(req, gid, NextId(highest));
      ref := AppendUser(user, NewShadow(user.name, today), db);
      Apart();
      JoinGroups(groups, refs, user.name, lines, at);
    }

    method AppendUser(user: PasswdRow, shadow: ShadowRow, ghost db: Db) returns (ref: UserRef)
      requires HoldsUsers(db)
      modifies this`users, this`shadows, this`nameToUser, this`idToUser
      ensures Rows(users) == db.users + [Parsed(user)] && Rows(shadows) == db.shadows + [Parsed(shadow)]
      ensures ref.shadow.Some? && users == old(users) + [Parsed(ref.passwd)]
      ensures shadows == old(shadows) + [Parsed(ref.shadow.value)]
      ensures nameToUser == old(nameToUser)[user.name := ref] && idToUser == old(idToUser)[user.gid := ref]
    {
      Apart();
      var passwdEntry := new Entry(user);
      var shadowEntry := new Entry(shadow);
      RowsAppend(users, Parsed(passwdEntry));
      RowsAppend(shadows, Parsed(shadowEntry));
      users := users + [Parsed(passwdEntry)];
      shadows := shadows + [Parsed(shadowEntry)];
      ref := UserRef(passwdEntry, Some(shadowEntry));
      nameToUser := nameToUser[user.name := ref];
      idToUser := idToUser[user.gid := ref];
    }

    /** `updateEtcPasswdRef`: a missing shadow entry panics once the passwd entry has been renamed. */
    method UpdateUserRef(ref: UserRef, req: UserReq, gid: uint32, ghost db: Db, ghost p: nat) returns (ok: bool)
      requires HoldsUsers(db) && IsRef(ref, db, p)
      modifies ref.passwd, Objects(shadows)
      ensures ok == (req.name == [] || ref.shadow.Some?)
      ensures ok ==>
                && Rows(users) == db.users[p := Parsed(UpdatedUser(db.users[p].entry, req, gid))]
                && ref.passwd.row == UpdatedUser(db.users[p].entry, req, gid)
                && Rows(shadows) == RenamedShadow(db.shadows, db.users[p].entry.name, req.name)
    {
      var former := ref.passwd.row;
      assert Rows(users)[p] == Parsed(former);
      var uid := if req.uid.Some? then req.uid.value else former.uid;
      var name := if req.name != [] then req.name else former.name;
      var user := former.(uid := uid, gid := gid, name := name);
      ghost var rows := db.users[p := Parsed(user)];
      SetRow(ref.passwd, user, users, db.users, p);
      if req.name != [] {
        if ref.shadow.None? { return false; }
        RenameShadow(ref.shadow.value, former.name, req.name, db.shadows, rows);
      }
      SetRow(ref.passwd, user.(geocs := req.displayName, shell := req.shell, homeDir := req.homeDir), users, rows, p);
      return true;
    }

    method RenameShadow(e: Entry<ShadowRow>, former: Bytes, name: Bytes, ghost rows: seq<Line<ShadowRow>>,
                        ghost userRows: seq<Line<PasswdRow>>)
      requires Rows(shadows) == rows && Distinct(shadows) && name != [] && Rows(users) == userRows
      requires LastEntry(shadows, rows, ShadowName, former) == Some(e)
      modifies e
      ensures Rows(shadows) == RenamedShadow(rows, former, name) && Rows(users) == userRows
    {
      SetRow(e, e.row.(name := name), shadows, rows, IndexBy(rows, ShadowName)[former]);
    }

    /** The branch of `Ensure` for a user that exists. */
    method ModifyUser(ref: UserRef, req: UserReq, gid: uint32, refs: seq<Entry<GroupRow>>,
                      ghost db: Db, ghost p: nat, ghost t: GroupTable, ghost at: seq<nat>) returns (r: Result<()>)
      requires HoldsUsers(db) && IsRef(ref, db, p) && HoldsGroups(t) && At(groups, refs, at)
      modifies this`nameToUser, this`idToUser, this`usernameToGroups, ref.passwd, Objects(shadows), Objects(groups)
      ensures match ModifiedDb(db, p, req, gid, t.lines, at)
              case Err(e) => r == Err(e)
              case Ok(after) => r.Ok? && Holds(after)
      ensures r.Ok? ==>
                && IsRow(db.users, p)
                && Index()
                   == MovedRefs(old(Index()), ref, db.users[p].entry, UpdatedUser(db.users[p].entry, req, gid), refs)
      ensures r.Ok? && req.name != [] && LookupUser(db.users, req) == Some(p)
              && old(UsersSynced(Index(), Tables(users, groups, shadows, db))) ==>
                (UsersSynced(Index(), Tables(users, groups, shadows, ModifiedDb(db, p, req, gid, t.lines, at).value))
                 <==> (db.users[p].entry.name == req.name
                       && IdIsFollowed(db.users, p, UpdatedUser(db.users[p].entry, req, gid))))
    {
      assert Rows(users)[p] == Parsed(ref.passwd.row);
      var former := ref.passwd.row;
      ghost var ix, tables := Index(), Tables(users, groups, shadows, db);
      if req.name != [] && LookupUser(db.users, req) == Some(p) && UsersSynced(ix, tables) {
        MovedUserIndexes(ix, tables, p, ref, req, gid, refs);
      }
      ModifiedDbIs(db, p, req, gid, t.lines, at);
      r := ModifyEntries(ref, req, gid, refs, db, p, t, at);
      if r.Ok? {
        MoveUser(ref, former, ref.passwd.row, refs, ModifiedDb(db, p, req, gid, t.lines, at).value);
      }
    }

    method ModifyEntries(ref: UserRef, req: UserReq, gid: uint32, refs: seq<Entry<GroupRow>>,
                      ghost db: Db, ghost p: nat, ghost t: GroupTable, ghost at: seq<nat>) returns (r: Result<()>)
      requires HoldsUsers(db) && IsRef(ref, db, p) && HoldsGroups(t) && At(groups, refs, at)
      modifies ref.passwd, Objects(shadows), Objects(groups)
      ensures match ModifiedDb(db, p, req, gid, t.lines, at)
              case Err(e) => r == Err(e)
              case Ok(after) => r.Ok? && Holds(after) && ref.passwd.row == UpdatedUser(db.users[p].entry, req, gid)
    {
      ModifiedDbIs(db, p, req, gid, t.lines, at);
      var former := ref.passwd.row.name;
      assert Rows(users)[p] == Parsed(ref.passwd.row);
      var ok := UpdateUserRef(ref, req, gid, db, p);
      if !ok { return Err(NilShadow); }
      RegroupUser(former, ref.passwd.row.name, refs, t, at, Db(Rows(users), [], Rows(shadows)));
      return Ok(());
    }

    method RegroupUser(former: Bytes, name: Bytes, refs: seq<Entry<GroupRow>>, ghost t: GroupTable, ghost at: seq<nat>,
                       ghost db: Db)
      requires HoldsGroups(t) && At(groups, refs, at) && Rows(users) == db.users && Rows(shadows) == db.shadows
      modifies Objects(groups)
      ensures Rows(groups) == RegroupedGroups(t.lines, at, former, name) && Rows(users) == db.users
      ensures Rows(shadows) == db.shadows
    {
      Regroup(groups, refs, usernameToGroups, former, name, t.lines, at);
    }

    /** How the indexes follow a changed user: by name only if the name stayed. */
    method MoveUser(ref: UserRef, former: PasswdRow, user: PasswdRow, refs: seq<Entry<GroupRow>>, ghost db: Db)
      requires Holds(db)
      modifies this`nameToUser, this`idToUser, this`usernameToGroups
      ensures Holds(db)
      ensures Index() == MovedRefs(old(Index()), ref, former, user, refs)
    {
      Apart();
      if former.name == user.name {
        nameToUser := nameToUser - {former.name};
        nameToUser := nameToUser[user.name := ref];
      }
      if former.uid != user.uid {
        idToUser := idToUser - {former.uid};
        idToUser := idToUser[user.uid := ref];
      }
      if former.name != user.name {
        usernameToGroups := usernameToGroups - {former.name};
      }
      usernameToGroups := usernameToGroups[user.name := refs];
    }

    // -------------------------------------------------------------------- saving

    method SavePasswd(ghost db: Db) returns (ok: bool)
      requires Holds(db)
      modifies this`files
      ensures Holds(db)
      ensures var w := EncodeFile(PasswdCodec(cfg.allowBadName), db.users);
              ok == w.ok && files == old(files).(passwd := w.bytes)
    {
      Apart();
      var w := EncodeEntries(PasswdCodec(cfg.allowBadName), users);
      files := files.(passwd := w.bytes);
      ok := w.ok;
    }

    method SaveGroup(ghost db: Db) returns (ok: bool)
      requires Holds(db)
      modifies this`files
      ensures Holds(db)
      ensures var w := EncodeFile(GroupCodec(cfg.allowBadName), db.groups);
              ok == w.ok && files == old(files).(group := w.bytes)
    {
      Apart();
      var w := EncodeEntries(GroupCodec(cfg.allowBadName), groups);
      files := files.(group := w.bytes);
      ok := w.ok;
    }

    method SaveShadow(ghost db: Db) returns (ok: bool)
      requires Holds(db)
      modifies this`files
      ensures Holds(db)
      ensures var w := EncodeFile(ShadowCodec(cfg.allowBadName), db.shadows);
              ok == w.ok && files == old(files).(shadow := w.bytes)
    {
      Apart();
      var w := EncodeEntries(ShadowCodec(cfg.allowBadName), shadows);
      files := files.(shadow := w.bytes);
      ok := w.ok;
    }

    /** `save`. */
    method SaveFiles(ghost db: Db) returns (ok: bool)
      requires Holds(db)
      modifies this`files
      ensures Holds(db) && Saved(files, ok) == Save(old(files), db, cfg)
    {
      ok := SavePasswd(db);
      if !ok { return; }
      ok := SaveGroup(db);
      if !ok { return; }
      ok := SaveShadow(db);
    }

    /** `ensurePreChecks`: on stale indexes it may decide anything that it can decide, but it never writes. */
    method PreChecks(req: UserReq, opts: Opts, ghost db: Db)
      returns (existing: Option<UserRef>, decided: Option<Result<Outcome>>)
      ensures decided.Some? ==> decided.value in {Ok(Unchanged), Err(NoSuchUser), Err(UserDoesNotFulfil)}
      ensures InSync(db) ==> IsFound(existing, db, req) && decided == PreChecked(db, req, opts)
    {
      var fulfilled;
      existing, fulfilled := IsFulfilled(req, db);
      if fulfilled { return existing, Some(Ok(Unchanged)); }
      if existing.None? && !opts.createAllowed { return existing, Some(Err(NoSuchUser)); }
      if !opts.modifyAllowed { return existing, Some(Err(UserDoesNotFulfil)); }
      return existing, None;
    }

    /** `Ensure` between its checks and saving. */
    method EnsureUser(existing: Option<UserRef>, req: UserReq, opts: Opts, today: uint32, ghost db: Db)
      returns (r: Result<Outcome>)
      requires InSync(db) && IsFound(existing, db, req) && PreChecked(db, req, opts) == None
      modifies this`users, this`groups, this`shadows
      modifies this`nameToUser, this`idToUser, this`nameToGroup, this`idToGroup, this`usernameToGroups
      modifies Objects(users), Objects(groups), Objects(shadows)
      ensures match EnsureDb(db, req, opts, today)
              case Err(e) => r == Err(e)
              case Ok(step) => r == Ok(step.outcome) && Holds(step.db) && step.outcome != Unchanged
    {
      LoadedGroups(db);
      EnsureDbIs(db, req, opts, today);
      var all := EnsureAllGroups(req, opts, db);
      if all.Err? { return Err(all.error); }
      r := CreateOrModify(existing, req, all.value.0, all.value.1, today, db, AllGroups(db, req, opts).value);
    }

    method CreateOrModify(existing: Option<UserRef>, req: UserReq, gid: uint32, refs: seq<Entry<GroupRow>>,
                          today: uint32,
                          ghost db: Db, ghost wanted: Wanted) returns (r: Result<Outcome>)
      requires HoldsUsers(db) && IsFound(existing, db, req)
      requires HoldsGroups(wanted.table) && At(groups, refs, wanted.refs) && gid == wanted.gid
      modifies this`users, this`shadows, this`nameToUser, this`idToUser, this`usernameToGroups
      modifies Objects(users), Objects(groups), Objects(shadows)
      ensures match EnsuredUser(db, req, wanted, today)
              case Err(e) => r == Err(e)
              case Ok(step) => r == Ok(step.outcome) && Holds(step.db)
    {
      match existing
      case None =>
        var _ := CreateUser(req, gid, refs, today, db, wanted.table.lines, wanted.refs);
        r := Ok(Created);
      case Some(ref) =>
        assert ref.passwd in Objects(users);
        var done := ModifyUser(ref, req, gid, refs, db, LookupUser(db.users, req).value, wanted.table, wanted.refs);
        r := if done.Ok? then Ok(Modified) else Err(done.error);
    }

    /** `Ensure` once it has the lock: it does to the files what the specification says, whatever was in memory. */
    method EnsureLocked(req: UserReq, opts: Opts, today: uint32) returns (r: Result<Outcome>, ghost db: Db)
      modifies this
      ensures Run(files, r) == EnsureFiles(old(files), cfg, req, opts, today)
      ensures r.Ok? ==>
                Load(old(files), cfg) == Some(db) && EnsureDb(db, req, opts, today).Ok?
                    && Holds(EnsureDb(db, req, opts, today).value.db)
    {
      var loaded;
      loaded, db := OpenAndLoad();
      if !loaded { return Err(CannotLoad), db; }
      r := EnsureLoaded(req, opts, today, db);
    }

    method EnsureLoaded(req: UserReq, opts: Opts, today: uint32, ghost db: Db) returns (r: Result<Outcome>)
      requires InSync(db)
      modifies this, Objects(users), Objects(groups), Objects(shadows)
      ensures Run(files, r) == EnsureAndSave(old(files), db, cfg, req, opts, today)
      ensures r.Ok? ==> EnsureDb(db, req, opts, today).Ok? && Holds(EnsureDb(db, req, opts, today).value.db)
    {
      var existing, decided := PreChecks(req, opts, db);
      if decided.Some? {
        DecidedIs(files, db, cfg, req, opts, today);
        return decided.value;
      }
      r := EnsureUndecided(existing, req, opts, today, db);
    }

    method EnsureUndecided(existing: Option<UserRef>, req: UserReq, opts: Opts, today: uint32, ghost db: Db)
      returns (r: Result<Outcome>)
      requires InSync(db) && IsFound(existing, db, req) && PreChecked(db, req, opts) == None
      modifies this, Objects(users), Objects(groups), Objects(shadows)
      ensures Run(files, r) == EnsureAndSave(old(files), db, cfg, req, opts, today)
      ensures r.Ok? ==> EnsureDb(db, req, opts, today).Ok? && Holds(EnsureDb(db, req, opts, today).value.db)
    {
      r := EnsureUser(existing, req, opts, today, db);
      if r.Ok? {
        var saved := SaveFiles(EnsureDb(db, req, opts, today).value.db);
        if !saved { r := Err(CannotSave); }
      }
    }

    /** `Ensure`: decided from memory without writing, or from file to file. On indexes that are those of the files,
        there is no difference. */
    method Ensure(req: UserReq, opts: Opts, today: uint32, ghost db: Db)
      returns (r: Result<Outcome>, ghost decidedEarly: bool)
      modifies this
      ensures decidedEarly ==> unchanged(this) && r in {Ok(Unchanged), Err(NoSuchUser), Err(UserDoesNotFulfil)}
      ensures !decidedEarly ==> Run(files, r) == EnsureFiles(old(files), cfg, UserOrDefaults(req), opts, today)
      ensures old(InSync(db) && Load(files, cfg) == Some(db)) ==>
                Run(files, r) == EnsureFiles(old(files), cfg, UserOrDefaults(req), opts, today)
    {
      var tReq := UserOrDefaults(req);
      var _, decided := PreChecks(tReq, opts, db);
      decidedEarly := decided.Some?;
      if decided.Some? {
        if InSync(db) && Load(files, cfg) == Some(db) {
          DecidedIs(files, db, cfg, tReq, opts, today);
        }
        return decided.value, true;
      }
      ghost var loaded;
      r, loaded := EnsureLocked(tReq, opts, today);
    }

    // ------------------------------------------------------------------ deletion

    method SelectRef(selector: Selector, ghost db: Db) returns (found: Option<UserRef>)
      requires InSync(db)
      ensures match Selected(db.users, selector)
              case None => found == None
              case Some(at) => found.Some? && IsRef(found.value, db, at)
    {
      IndexPoints(PasswdOf(nameToUser), users, db.users, UserName);
      IndexPoints(PasswdOf(idToUser), users, db.users, UserId);
      match selector
      case ById(uid) =>
        found := if uid in idToUser then Some(idToUser[uid]) else None;
      case ByName(name) =>
        found := if name in nameToUser then Some(nameToUser[name]) else None;
    }

    /** The user leaves the indexes and its groups. */
    method UnlinkUser(row: PasswdRow, ghost db: Db)
      requires InSync(db)
      modifies this`nameToUser, this`idToUser, this`usernameToGroups, Objects(groups)
      ensures Index() == WithoutRefs(old(Index()), row)
      ensures HoldsUsers(db) && Rows(groups) == LeftGroups(db.groups, row.name)
    {
      Apart();
      var es := GroupsOf(usernameToGroups, groups, db.groups, row.name);
      LeaveGroups(groups, es, row.name, db.groups);
      Unlink(row, Db(db.users, LeftGroups(db.groups, row.name), db.shadows));
    }

    method Unlink(row: PasswdRow, ghost db: Db)
      requires HoldsUsers(db) && Rows(groups) == db.groups
      modifies this`nameToUser, this`idToUser, this`usernameToGroups
      ensures Index() == WithoutRefs(old(Index()), row) && HoldsUsers(db) && Rows(groups) == db.groups
    {
      Apart();
      nameToUser := nameToUser - {row.name};
      idToUser := idToUser - {row.uid};
      usernameToGroups := usernameToGroups - {row.name};
    }

    method DropPasswd(row: PasswdRow, ghost db: Db)
      requires HoldsUsers(db) && Rows(groups) == db.groups
      modifies this`users
      ensures users == Keep(old(users), db.users, SameUid(row)) && Rows(users) == Dropped(db.users, SameUid(row))
      ensures Rows(shadows) == db.shadows && Rows(groups) == db.groups
    {
      Apart();
      var kept := DeleteEntries(users, SameUid(row));
      KeepRows(users, db.users, SameUid(row));
      users := kept;
      Apart();
    }

    method DropShadow(row: PasswdRow, ghost db: Db)
      requires Holds(db)
      modifies this`shadows
      ensures shadows == Keep(old(shadows), db.shadows, SameName(row))
      ensures Rows(shadows) == Dropped(db.shadows, SameName(row))
      ensures Rows(users) == db.users && Rows(groups) == db.groups
    {
      Apart();
      var kept := DeleteEntries(shadows, SameName(row));
      KeepRows(shadows, db.shadows, SameName(row));
      shadows := kept;
      Apart();
    }

    /** The rows of the user leave the lists: the passwd rows first, so that a panic over the shadow rows comes after.
        */
    method DropUser(row: PasswdRow, shadow: Option<Entry<ShadowRow>>, ghost db: Db) returns (ok: bool)
      requires HoldsUsers(db) && Rows(groups) == db.groups
      modifies this`users, this`shadows
      ensures ok == (shadow.Some? || !HasRow(db.shadows))
      ensures Rows(groups) == db.groups
      ensures ok ==>
                && users == Keep(old(users), db.users, SameUid(row)) && Rows(users) == Dropped(db.users, SameUid(row))
                && shadows == Keep(old(shadows), db.shadows, SameName(row))
                && Rows(shadows) == Dropped(db.shadows, SameName(row))
    {
      DropPasswd(row, db);
      ok := shadow.Some?;
      if shadow.None? {
        var any := HasEntry(shadows);
        ok := !any;
      }
      if ok {
        DropShadow(row, db.(users := Dropped(db.users, SameUid(row))));
      }
    }

    /** `deleteRef` between its selection and saving. */
    method DeleteSelected(ref: UserRef, ghost db: Db, ghost at: nat) returns (r: Result<()>)
      requires InSync(db) && IsRef(ref, db, at)
      modifies this`users, this`shadows, this`nameToUser, this`idToUser, this`usernameToGroups, Objects(groups)
      ensures match DeleteDb(db, at)
              case Err(e) => r == Err(e)
              case Ok(after) =>
                var row := db.users[at].entry;
                && r.Ok? && Holds(after) && Index() == WithoutRefs(old(Index()), row)
                && Tables(users, groups, shadows, after) == WithoutUser(old(Tables(users, groups, shadows, db)), row)
    {
      var row := ref.passwd.row;
      assert Rows(users)[at] == Parsed(row);
      if ref.shadow.Some? {
        assert Rows(shadows)[IndexBy(db.shadows, ShadowName)[row.name]] == Parsed(ref.shadow.value.row);
      }
      UnlinkUser(row, db);
      var ok := DropUser(row, ref.shadow, Db(db.users, LeftGroups(db.groups, row.name), db.shadows));
      r := if ok then Ok(()) else Err(NilShadow);
    }

    /** The user is deleted, and the indexes are those of a reload exactly when nothing else goes by its name or id. */
    ghost predicate IsDeleted(db: Db, at: nat)
      requires IsRow(db.users, at) && DeleteDb(db, at).Ok?
      reads this, Objects(users), Objects(groups), Objects(shadows)
    {
      var t := Tables(users, groups, shadows, DeleteDb(db, at).value);
      && Holds(t.db) && GroupsSynced(Index(), t)
      && (UsersSynced(Index(), t) <==> Unambiguous(db.users, db.users[at].entry))
    }

    method DeleteIndexed(ref: UserRef, ghost db: Db, ghost at: nat) returns (r: Result<()>)
      requires InSync(db) && IsRef(ref, db, at)
      modifies this`users, this`shadows, this`nameToUser, this`idToUser, this`usernameToGroups, Objects(groups)
      ensures match DeleteDb(db, at)
              case Err(e) => r == Err(e)
              case Ok(after) => r.Ok? && IsDeleted(db, at)
    {
      ghost var row, t, ix := db.users[at].entry, Tables(users, groups, shadows, db), Index();
      DeletedUserIndexes(ix, t, row);
      DeletedUserGroups(ix, t, row);
      r := DeleteSelected(ref, db, at);
    }

    method SaveDeleted(ghost db: Db, ghost at: nat) returns (ok: bool)
      requires IsRow(db.users, at) && DeleteDb(db, at).Ok? && IsDeleted(db, at)
      modifies this`files
      ensures IsDeleted(db, at) && Saved(files, ok) == Save(old(files), DeleteDb(db, at).value, cfg)
    {
      ok := SaveFiles(DeleteDb(db, at).value);
    }

    /** `deleteRef`: what it does to the files and the indexes. */
    method DeleteRef(selector: Selector) returns (r: Result<()>, ghost db: Db)
      modifies this
      ensures Run(files, r) == DeleteFiles(old(files), cfg, selector)
      ensures r.Ok? ==> Load(old(files), cfg) == Some(db)
      ensures r.Ok? ==> match Selected(db.users, selector) case None => false case Some(at) => IsDeleted(db, at)
    {
      var loaded;
      loaded, db := OpenAndLoad();
      if !loaded { return Err(CannotLoad), db; }
      r := DeleteLoaded(selector, db);
    }

    method DeleteLoaded(selector: Selector, ghost db: Db) returns (r: Result<()>)
      requires InSync(db)
      modifies this, Objects(groups)
      ensures Run(files, r) == DeleteAndSave(old(files), db, cfg, selector)
      ensures r.Ok? ==> match Selected(db.users, selector) case None => false case Some(at) => IsDeleted(db, at)
    {
      var selected := SelectRef(selector, db);
      match selected
      case None =>
        r := Err(NoSuchUser);
      case Some(ref) =>
        r := DeleteAndSaveRef(ref, db, Selected(db.users, selector).value);
    }

    method DeleteAndSaveRef(ref: UserRef, ghost db: Db, ghost at: nat) returns (r: Result<()>)
      requires InSync(db) && IsRef(ref, db, at)
      modifies this, Objects(groups)
      ensures match DeleteDb(db, at)
              case Err(e) => r == Err(e) && files == old(files)
              case Ok(after) =>
                var saved := Save(old(files), after, cfg);
                IsDeleted(db, at) && files == saved.files && r == if saved.ok then Ok(()) else Err(CannotSave)
    {
      r := DeleteIndexed(ref, db, at);
      if r.Ok? {
        var saved := SaveDeleted(db, at);
        r := if saved then Ok(()) else Err(CannotSave);
      }
    }

    // --------------------------------------------------------- ensuring one group

    /** The group is ensured, the user indexes are those of a reload, and the group indexes are if the table is. */
    ghost predicate IsEnsured(db: Db, s: GroupStep)
      reads this, Objects(users), Objects(groups), Objects(shadows)
    {
      var t := Tables(users, groups, shadows, Db(db.users, s.table.lines, db.shadows));
      && Holds(t.db) && UsersSynced(Index(), t)
      && (GroupsSynced(Index(), t) <==> s.table == LoadedTable(s.table.lines))
    }

    method EnsureGroupIndexed(req: GroupReq, opts: Opts, ghost db: Db) returns (r: Result<Outcome>)
      requires InSync(db)
      modifies this`groups, this`nameToGroup, this`idToGroup, Objects(groups)
      ensures match EnsureGroup(LoadedTable(db.groups), req, opts)
              case Err(e) => r == Err(e)
              case Ok(s) => r == Ok(s.outcome) && IsEnsured(db, s)
    {
      LoadedGroups(db);
      var ref, outcome := EnsureGroupRef(req, opts, LoadedTable(db.groups), db);
      if ref.Err? { return Err(ref.error); }
      ghost var s := EnsureGroup(LoadedTable(db.groups), req, opts).value;
      GroupsIndexedSynced(Index(), Tables(users, groups, shadows, Db(db.users, s.table.lines, db.shadows)), s.table);
      r := Ok(outcome);
    }

    method SaveEnsured(ghost db: Db, ghost s: GroupStep) returns (ok: bool)
      requires IsEnsured(db, s)
      modifies this`files
      ensures IsEnsured(db, s) && Saved(files, ok) == Save(old(files), db.(groups := s.table.lines), cfg)
    {
      ok := SaveFiles(db.(groups := s.table.lines));
    }

    /** `EnsureGroup` once it has the lock: what it does to the files and the indexes. */
    method EnsureGroupLocked(req: GroupReq, opts: Opts) returns (r: Result<Outcome>, ghost db: Db)
      modifies this
      ensures Run(files, r) == EnsureGroupFiles(old(files), cfg, req, opts)
      ensures r.Ok? ==> Load(old(files), cfg) == Some(db)
      ensures r.Ok? ==> match EnsureGroup(LoadedTable(db.groups), req, opts) case Err(_) => false
              case Ok(s) => IsEnsured(db, s)
    {
      var loaded;
      loaded, db := OpenAndLoad();
      if !loaded { return Err(CannotLoad), db; }
      r := EnsureGroupLoaded(req, opts, db);
    }

    method EnsureGroupLoaded(req: GroupReq, opts: Opts, ghost db: Db) returns (r: Result<Outcome>)
      requires InSync(db) && Load(files, cfg) == Some(db)
      modifies this, Objects(groups)
      ensures Run(files, r) == EnsureGroupFiles(old(files), cfg, req, opts)
      ensures r.Ok? ==> match EnsureGroup(LoadedTable(db.groups), req, opts) case Err(_) => false
              case Ok(s) => IsEnsured(db, s)
    {
      r := EnsureGroupIndexed(req, opts, db);
      if r.Ok? && r.value != Unchanged {
        var saved := SaveEnsured(db, EnsureGroup(LoadedTable(db.groups), req, opts).value);
        if !saved { r := Err(CannotSave); }
      }
    }

    /** `EnsureGroup`. */
    method EnsureGroupByReq(req: GroupReq, opts: Opts, ghost db: Db)
      returns (r: Result<Outcome>, ghost decidedEarly: bool)
      modifies this
      ensures decidedEarly ==> unchanged(this) && r in {Ok(Unchanged), Err(NoSuchGroup), Err(GroupDoesNotFulfil)}
      ensures !decidedEarly ==> Run(files, r) == EnsureGroupFiles(old(files), cfg, GroupOrDefaults(req, []), opts)
      ensures old(InSync(db) && Load(files, cfg) == Some(db)) ==>
                Run(files, r) == EnsureGroupFiles(old(files), cfg, GroupOrDefaults(req, []), opts)
    {
      var tReq := GroupOrDefaults(req, []);
      decidedEarly := true;
      if InSync(db) { LoadedGroups(db); }
      var existing := LookupGroupRef(tReq, LoadedTable(db.groups));
      if existing.Some? {
        assert InSync(db) ==>
                 Rows(groups)[LookupGroup(LoadedTable(db.groups), tReq).value] == Parsed(existing.value.row);
        if GroupFulfils(tReq, existing.value.row) { return Ok(Unchanged), true; }
      } else if !opts.createAllowed {
        return Err(NoSuchGroup), true;
      }
      if !opts.modifyAllowed { return Err(GroupDoesNotFulfil), true; }
      decidedEarly := false;
      ghost var loaded;
      r, loaded := EnsureGroupLocked(tReq, opts);
    }
  }
}
