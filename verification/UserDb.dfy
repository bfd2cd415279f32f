/** The user database as values: what its lookups, `Ensure` and the deletion of a user make of the three files. */
module UserDb {
  import opened Bytes
  import opened ColonCodec
  import opened UnixRows

  datatype Db = Db(users: seq<Line<PasswdRow>>, groups: seq<Line<GroupRow>>, shadows: seq<Line<ShadowRow>>)

  datatype GroupReq = GroupReq(gid: Option<uint32>, name: Bytes)

  datatype UserReq = UserReq(name: Bytes, displayName: Bytes, uid: Option<uint32>, group: GroupReq,
                             groups: seq<GroupReq>, shell: Bytes, homeDir: Bytes)

  datatype Opts = Opts(createAllowed: bool, modifyAllowed: bool)

  datatype Outcome = Unchanged | Modified | Created

  /** `NilShadow` stands for the source's panic on a user without a shadow line. */
  datatype Failure = NoSuchUser | UserDoesNotFulfil | NoSuchGroup | GroupDoesNotFulfil | NilShadow | CannotLoad
                   | CannotSave

  datatype Result<+T> = Ok(value: T) | Err(error: Failure)

  const DEFAULT_GROUP_NAME: Bytes := "bifroest"
  const NO_GROUP: GroupReq := GroupReq(None, [])

  // ------------------------------------------------------------- requirements

  /** `GroupRequirement.OrDefaultsForUser`; the source's nil user is the empty name here. */
  function GroupOrDefaults(req: GroupReq, userName: Bytes): GroupReq {
    if req.name != [] then req
    else match req.gid
         case Some(gid) => req.(name := "g" + FormatUint(gid))
         case None => req.(name := userName)
  }

  /** `Requirement.OrDefaults`. The default primary group carries the name that was asked for, not the one
      made up from the user id. */
  function UserOrDefaults(req: UserReq): UserReq {
    var name := if req.name == [] && req.uid.Some? then "u" + FormatUint(req.uid.value) else req.name;
    req.(name := name,
         homeDir := if req.homeDir == [] && name != [] then "/home/" + name else req.homeDir,
         group := if req.group == NO_GROUP then GroupReq(None, req.name) else req.group,
         groups := if req.groups == [] then [GroupReq(None, DEFAULT_GROUP_NAME)] else req.groups)
  }

  predicate UserFulfils(req: UserReq, row: PasswdRow) {
    && (req.name != [] || req.uid.Some?)
    && (req.name == [] || req.name == row.name)
    && req.displayName == row.geocs
    && (req.uid.None? || req.uid.value == row.uid)
    && req.shell == row.shell
    && req.homeDir == row.homeDir
  }

  predicate GroupFulfils(req: GroupReq, row: GroupRow) {
    && (req.name != [] || req.gid.Some?)
    && (req.gid.None? || req.gid.value == row.gid)
    && (req.name == [] || req.name == row.name)
  }

  // ------------------------------------------------------------------ indexes

  /** The position of the last row with each key, as the loops over the entries leave it behind. */
  function IndexBy<T, K(==)>(lines: seq<Line<T>>, key: T -> K): (m: map<K, nat>)
    ensures forall k :: k in m ==> m[k] < |lines| && lines[m[k]].Parsed? && key(lines[m[k]].entry) == k
  {
    if lines == [] then map[]
    else
      var n := |lines| - 1;
      var m := IndexBy(lines[..n], key);
      if lines[n].Parsed? then m[key(lines[n].entry) := n] else m
  }

  /** The reference definition of a lookup: scan all lines and keep the last match. */
  function FindLast<T, K(==)>(lines: seq<Line<T>>, key: T -> K, k: K): Option<T> {
    if lines == [] then None
    else match FindLast(lines[1..], key, k)
         case Some(row) => Some(row)
         case None => if lines[0].Parsed? && key(lines[0].entry) == k then Some(lines[0].entry) else None
  }

  function UserName(row: PasswdRow): Bytes { row.name }
  function UserId(row: PasswdRow): uint32 { row.uid }
  function GroupName(row: GroupRow): Bytes { row.name }
  function GroupId(row: GroupRow): uint32 { row.gid }
  function ShadowName(row: ShadowRow): Bytes { row.name }

  function Times<T>(x: T, n: nat): seq<T> { seq(n, _ => x) }

  /** The groups of a user in the order of the file, once for every time a group lists the user. */
  function MemberRows(groups: seq<Line<GroupRow>>, user: Bytes): seq<GroupRow> {
    if groups == [] then []
    else (if groups[0].Parsed? then Times(groups[0].entry, Count(groups[0].entry.userNames, user)) else [])
         + MemberRows(groups[1..], user)
  }

  // ---------------------------------------------------- is a requirement fulfilled

  function FindUser(users: seq<Line<PasswdRow>>, req: UserReq): Option<PasswdRow> {
    if req.name != [] && FindLast(users, UserName, req.name).Some? then FindLast(users, UserName, req.name)
    else if req.uid.Some? then FindLast(users, UserId, req.uid.value)
    else None
  }

  function FindGroup(groups: seq<Line<GroupRow>>, req: GroupReq): Option<GroupRow> {
    if req.name != [] && FindLast(groups, GroupName, req.name).Some? then FindLast(groups, GroupName, req.name)
    else if req.gid.Some? then FindLast(groups, GroupId, req.gid.value)
    else None
  }

  predicate IsAskedFor(reqs: seq<GroupReq>, row: GroupRow) { exists j :: 0 <= j < |reqs| && GroupFulfils(reqs[j], row) }

  predicate GroupsMatch(rows: seq<GroupRow>, reqs: seq<GroupReq>) {
    |reqs| == |rows| && forall i :: 0 <= i < |rows| ==> IsAskedFor(reqs, rows[i])
  }

  /** `isRequirementFulfilled`. */
  predicate Fulfilled(db: Db, req: UserReq) {
    match (FindUser(db.users, req), FindGroup(db.groups, req.group))
    case (Some(user), Some(group)) =>
      && UserFulfils(req, user) && GroupFulfils(req.group, group) && group.gid == user.gid
      && GroupsMatch(MemberRows(db.groups, user.name), req.groups)
    case _ => false
  }

  // ------------------------------------------------------------ id allocation

  const NOBODY: uint32 := 65534

  function Highest<T>(lines: seq<Line<T>>, id: T -> uint32, skipped: T -> bool): uint32 {
    if lines == [] then 0
    else
      var n := |lines| - 1;
      var h := Highest(lines[..n], id, skipped);
      if lines[n].Parsed? && !skipped(lines[n].entry) && id(lines[n].entry) > h then id(lines[n].entry) else h
  }

  predicate IsNobody(row: PasswdRow) { row.uid == NOBODY && row.name == "nobody" }
  predicate IsNoGroup(row: GroupRow) { row.gid == NOBODY && row.name == "nogroup" }

  /** The 32 bit successor of the highest id in use, at least 1000, and never the one of `nobody`. */
  function NextId(highest: uint32): uint32 {
    if highest < 1000 then 1000
    else
      var next := if highest == 0xffff_ffff then 0 else highest + 1;
      if next == NOBODY then NOBODY + 1 else next
  }

  function NextUid(users: seq<Line<PasswdRow>>): uint32 { NextId(Highest(users, UserId, IsNobody)) }
  function NextGid(groups: seq<Line<GroupRow>>): uint32 { NextId(Highest(groups, GroupId, IsNoGroup)) }

  // -------------------------------------------------------------- ensureGroup

  /** The group lines with the two group indexes, which are edited along with them. */
  datatype GroupTable = GroupTable(lines: seq<Line<GroupRow>>, byName: map<Bytes, nat>, byGid: map<uint32, nat>)

  datatype GroupStep = GroupStep(table: GroupTable, at: nat, outcome: Outcome)

  predicate IsRow<T>(lines: seq<Line<T>>, at: nat) { at < |lines| && lines[at].Parsed? }

  predicate TableOk(t: GroupTable) {
    && (forall k :: k in t.byName ==> IsRow(t.lines, t.byName[k]) && t.lines[t.byName[k]].entry.name == k)
    && (forall k :: k in t.byGid ==> IsRow(t.lines, t.byGid[k]))
  }

  function LoadedTable(groups: seq<Line<GroupRow>>): (t: GroupTable)
    ensures TableOk(t)
  {
    GroupTable(groups, IndexBy(groups, GroupName), IndexBy(groups, GroupId))
  }

  function LookupGroup(t: GroupTable, req: GroupReq): Option<nat> {
    if req.name != [] && req.name in t.byName then Some(t.byName[req.name])
    else if req.gid.Some? then Find(t.byGid, req.gid.value)
    else None
  }

  function NewGroup(req: GroupReq, nextGid: uint32): GroupRow {
    var gid := if req.gid.Some? then req.gid.value else nextGid;
    GroupRow(if req.name != [] then req.name else "g" + FormatUint(gid), "x", gid, [])
  }

  function UpdatedGroup(row: GroupRow, req: GroupReq): GroupRow {
    row.(gid := if req.gid.Some? then req.gid.value else row.gid, name := if req.name != [] then req.name else row.name)
  }

  /** The tables after a row was appended, as `ensureGroup` edits them. */
  function WithNewGroup(t: GroupTable, row: GroupRow): GroupTable {
    var n := |t.lines|;
    GroupTable(t.lines + [Parsed(row)], t.byName[row.name := n], t.byGid[row.gid := n])
  }

  /** The tables after a row was changed. The entry of the former gid stays in the index by gid. */
  function WithUpdatedGroup(t: GroupTable, at: nat, row: GroupRow): GroupTable
    requires IsRow(t.lines, at)
  {
    var former := t.lines[at].entry;
    GroupTable(t.lines[at := Parsed(row)],
               if former.name != row.name then (t.byName - {former.name})[row.name := at] else t.byName,
               if former.gid != row.gid then t.byGid[row.gid := at] else t.byGid)
  }

  /** `ensureGroup` on a requirement that has got its defaults. */
  function EnsureGroup(t: GroupTable, req: GroupReq, opts: Opts): (r: Result<GroupStep>)
    requires TableOk(t)
  {
    match LookupGroup(t, req)
    case Some(at) =>
      var row := t.lines[at].entry;
      if GroupFulfils(req, row) then Ok(GroupStep(t, at, Unchanged))
      else if !opts.modifyAllowed then Err(GroupDoesNotFulfil)
      else Ok(GroupStep(WithUpdatedGroup(t, at, UpdatedGroup(row, req)), at, Modified))
    case None =>
      if !opts.createAllowed then Err(NoSuchGroup)
      else if !opts.modifyAllowed then Err(GroupDoesNotFulfil)
      else Ok(GroupStep(WithNewGroup(t, NewGroup(req, NextGid(t.lines))), |t.lines|, Created))
  }

  /** Members do not change, names and positions in the index stay right, and the result is the row asked for. */
  lemma EnsureGroupKeeps(t: GroupTable, req: GroupReq, opts: Opts)
    requires TableOk(t) && EnsureGroup(t, req, opts).Ok?
    ensures var s := EnsureGroup(t, req, opts).value;
            TableOk(s.table) && IsRow(s.table.lines, s.at) && |t.lines| <= |s.table.lines|
    ensures var s := EnsureGroup(t, req, opts).value;
            req != NO_GROUP ==> GroupFulfils(req, s.table.lines[s.at].entry)
  {
  }

  /** The tables as far as they got, with the positions of the groups or the error. */
  datatype GroupsStep = GroupsStep(table: GroupTable, refs: Result<seq<nat>>)

  /** `ensureGroups`: an error leaves the groups before it changed in memory. */
  function EnsureGroups(t: GroupTable, reqs: seq<GroupReq>, opts: Opts): (r: GroupsStep)
    requires TableOk(t)
    ensures TableOk(r.table) && |t.lines| <= |r.table.lines|
    ensures r.refs.Ok? ==>
              |r.refs.value| == |reqs| && forall i :: 0 <= i < |reqs| ==> IsRow(r.table.lines, r.refs.value[i])
    decreases |reqs|
  {
    if reqs == [] then GroupsStep(t, Ok([]))
    else
      var n := |reqs| - 1;
      var before := EnsureGroups(t, reqs[..n], opts);
      if before.refs.Err? then before
      else match EnsureGroup(before.table, GroupOrDefaults(reqs[n], []), opts)
           case Err(e) => GroupsStep(before.table, Err(e))
           case Ok(s) =>
             EnsureGroupKeeps(before.table, GroupOrDefaults(reqs[n], []), opts);
             GroupsStep(s.table, Ok(before.refs.value + [s.at]))
  }

  // ------------------------------------------------------------------- Ensure

  datatype EnsureStep = EnsureStep(db: Db, outcome: Outcome)

  function LookupUser(users: seq<Line<PasswdRow>>, req: UserReq): Option<nat> {
    var byName, byUid := IndexBy(users, UserName), IndexBy(users, UserId);
    if req.name != [] && req.name in byName then Some(byName[req.name])
    else if req.uid.Some? then Find(byUid, req.uid.value)
    else None
  }

  function NewUser(req: UserReq, gid: uint32, nextUid: uint32): PasswdRow {
    var uid := if req.uid.Some? then req.uid.value else nextUid;
    PasswdRow(if req.name != [] then req.name else "u" + FormatUint(uid), "x", uid, gid,
              req.displayName, req.homeDir, req.shell)
  }

  function NewShadow(name: Bytes, today: uint32): ShadowRow {
    ShadowRow(name, "*", today, 0, 99999, Some(7), None, None)
  }

  function UpdatedUser(row: PasswdRow, req: UserReq, gid: uint32): PasswdRow {
    row.(uid := if req.uid.Some? then req.uid.value else row.uid, gid := gid,
         name := if req.name != [] then req.name else row.name,
         geocs := req.displayName, shell := req.shell, homeDir := req.homeDir)
  }

  function Without(names: seq<Bytes>, name: Bytes): seq<Bytes> {
    if names == [] then [] else (if names[0] == name then [] else [names[0]]) + Without(names[1..], name)
  }

  function WithUnique(names: seq<Bytes>, name: Bytes): seq<Bytes> {
    if name in names then names else names + [name]
  }

  function Occurs(refs: seq<nat>, at: nat): nat {
    if refs == [] then 0 else Occurs(refs[..|refs| - 1], at) + if refs[|refs| - 1] == at then 1 else 0
  }

  /** A new user is appended to the groups one by one, without a look at who is in them. */
  function JoinedGroups(lines: seq<Line<GroupRow>>, refs: seq<nat>, name: Bytes): seq<Line<GroupRow>> {
    seq(|lines|, i requires 0 <= i < |lines| =>
      match lines[i]
      case Raw(_) => lines[i]
      case Parsed(g) => Parsed(g.(userNames := g.userNames + Times(name, Occurs(refs, i)))))
  }

  predicate HasGidOf(lines: seq<Line<GroupRow>>, refs: seq<nat>, gid: uint32) {
    exists j :: 0 <= j < |refs| && IsRow(lines, refs[j]) && lines[refs[j]].entry.gid == gid
  }

  /** Groups the user leaves: they list the name, no wanted group has their gid, and of those with the same gid
      only the last one is considered, because they are collected by gid. */
  predicate IsStale(lines: seq<Line<GroupRow>>, refs: seq<nat>, name: Bytes, at: nat) {
    && IsRow(lines, at) && name in lines[at].entry.userNames
    && !HasGidOf(lines, refs, lines[at].entry.gid)
    && forall q :: at < q < |lines| && lines[q].Parsed? && lines[q].entry.gid == lines[at].entry.gid ==>
         name !in lines[q].entry.userNames
  }

  function RegroupedMembers(lines: seq<Line<GroupRow>>, refs: seq<nat>, former: Bytes, name: Bytes, at: nat): seq<Bytes>
    requires IsRow(lines, at)
  {
    var members := if former == name then lines[at].entry.userNames else Without(lines[at].entry.userNames, former);
    if at in refs then WithUnique(members, name)
    else if IsStale(lines, refs, name, at) then Without(members, name)
    else members
  }

  function RegroupedGroups(lines: seq<Line<GroupRow>>, refs: seq<nat>, former: Bytes,
                           name: Bytes): seq<Line<GroupRow>> {
    seq(|lines|, i requires 0 <= i < |lines| =>
      match lines[i]
      case Raw(_) => lines[i]
      case Parsed(g) => Parsed(g.(userNames := RegroupedMembers(lines, refs, former, name, i))))
  }

  /** A user that did not exist: the database after `Ensure`, given the groups as they have been ensured. */
  function CreatedDb(db: Db, req: UserReq, gid: uint32, lines: seq<Line<GroupRow>>, refs: seq<nat>, today: uint32): Db {
    var user := NewUser(req, gid, NextUid(db.users));
    Db(db.users + [Parsed(user)], JoinedGroups(lines, refs, user.name),
       db.shadows + [Parsed(NewShadow(user.name, today))])
  }

  /** An existing user: the same, or the panic on a missing shadow line that has to be renamed. */
  function ModifiedDb(db: Db, at: nat, req: UserReq, gid: uint32, lines: seq<Line<GroupRow>>,
                      refs: seq<nat>): Result<Db>
    requires IsRow(db.users, at)
  {
    var former := db.users[at].entry;
    var user := UpdatedUser(former, req, gid);
    var users := db.users[at := Parsed(user)];
    var groups := RegroupedGroups(lines, refs, former.name, user.name);
    if req.name == [] then Ok(Db(users, groups, db.shadows))
    else match Find(IndexBy(db.shadows, ShadowName), former.name)
         case None => Err(NilShadow)
         case Some(s) => Ok(Db(users, groups, db.shadows[s := Parsed(db.shadows[s].entry.(name := user.name))]))
  }

  /** The groups of a requirement: the gid of the primary one, and where the others are. */
  datatype Wanted = Wanted(gid: uint32, table: GroupTable, refs: seq<nat>)

  function AllGroups(db: Db, req: UserReq, opts: Opts): Result<Wanted> {
    match EnsureGroup(LoadedTable(db.groups), GroupOrDefaults(req.group, req.name), opts)
    case Err(e) => Err(e)
    case Ok(primary) =>
      EnsureGroupKeeps(LoadedTable(db.groups), GroupOrDefaults(req.group, req.name), opts);
      var others := EnsureGroups(primary.table, req.groups, opts);
      match others.refs
      case Err(e) => Err(e)
      case Ok(refs) => Ok(Wanted(primary.table.lines[primary.at].entry.gid, others.table, refs))
  }

  /** What `Ensure` decides before it changes anything. */
  function PreChecked(db: Db, req: UserReq, opts: Opts): Option<Result<Outcome>> {
    if Fulfilled(db, req) then Some(Ok(Unchanged))
    else if LookupUser(db.users, req).None? && !opts.createAllowed then Some(Err(NoSuchUser))
    else if !opts.modifyAllowed then Some(Err(UserDoesNotFulfil))
    else None
  }

  /** The part of `Ensure` between loading and saving, on a requirement that has got its defaults. */
  function EnsureDb(db: Db, req: UserReq, opts: Opts, today: uint32): Result<EnsureStep> {
    match PreChecked(db, req, opts)
    case Some(Ok(outcome)) => Ok(EnsureStep(db, outcome))
    case Some(Err(e)) => Err(e)
    case None =>
      match AllGroups(db, req, opts)
      case Err(e) => Err(e)
      case Ok(all) => EnsuredUser(db, req, all, today)
  }

  function EnsuredUser(db: Db, req: UserReq, all: Wanted, today: uint32): Result<EnsureStep> {
    match LookupUser(db.users, req)
    case None => Ok(EnsureStep(CreatedDb(db, req, all.gid, all.table.lines, all.refs, today), Created))
    case Some(at) =>
      match ModifiedDb(db, at, req, all.gid, all.table.lines, all.refs)
      case Err(e) => Err(e)
      case Ok(after) => Ok(EnsureStep(after, Modified))
  }

  // --------------------------------------------------------- deleting a user

  function Dropped<T>(lines: seq<Line<T>>, gone: T -> bool): seq<Line<T>> {
    if lines == [] then []
    else (if lines[0].Parsed? && gone(lines[0].entry) then [] else [lines[0]]) + Dropped(lines[1..], gone)
  }

  function LeftGroups(lines: seq<Line<GroupRow>>, name: Bytes): seq<Line<GroupRow>> {
    seq(|lines|, i requires 0 <= i < |lines| =>
      match lines[i]
      case Raw(_) => lines[i]
      case Parsed(g) => Parsed(g.(userNames := Without(g.userNames, name))))
  }

  function SameUid(row: PasswdRow): PasswdRow -> bool { (u: PasswdRow) => u.uid == row.uid }
  function SameName(row: PasswdRow): ShadowRow -> bool { (s: ShadowRow) => s.name == row.name }

  predicate HasRow<T>(lines: seq<Line<T>>) { exists i :: 0 <= i < |lines| && lines[i].Parsed? }

  /** `deleteRef` for the row at a position: every line with its uid goes, and every shadow line with its name.
      Without a shadow line of its own, comparing with any other one panics. */
  function DeleteDb(db: Db, at: nat): Result<Db>
    requires IsRow(db.users, at)
  {
    var row := db.users[at].entry;
    if row.name !in IndexBy(db.shadows, ShadowName) && HasRow(db.shadows) then Err(NilShadow)
    else Ok(Db(Dropped(db.users, SameUid(row)), LeftGroups(db.groups, row.name), Dropped(db.shadows, SameName(row))))
  }

  // -------------------------------------------------------------------- files

  datatype Files = Files(passwd: Bytes, group: Bytes, shadow: Bytes)

  datatype Config = Config(allowBadName: bool, allowBadLine: bool)

  function Load(files: Files, cfg: Config): Option<Db> {
    match (DecodeFile(PasswdCodec(cfg.allowBadName), files.passwd, cfg.allowBadLine),
           DecodeFile(GroupCodec(cfg.allowBadName), files.group, cfg.allowBadLine),
           DecodeFile(ShadowCodec(cfg.allowBadName), files.shadow, cfg.allowBadLine))
    case (Some(users), Some(groups), Some(shadows)) => Some(Db(users, groups, shadows))
    case _ => None
  }

  datatype Saved = Saved(files: Files, ok: bool)

  /** `save`: passwd, group and shadow in this order, each emptied before it is written, up to the first error. */
  function Save(files: Files, db: Db, cfg: Config): Saved {
    var passwd := EncodeFile(PasswdCodec(cfg.allowBadName), db.users);
    var group := EncodeFile(GroupCodec(cfg.allowBadName), db.groups);
    var shadow := EncodeFile(ShadowCodec(cfg.allowBadName), db.shadows);
    if !passwd.ok then Saved(files.(passwd := passwd.bytes), false)
    else if !group.ok then Saved(files.(passwd := passwd.bytes, group := group.bytes), false)
    else Saved(Files(passwd.bytes, group.bytes, shadow.bytes), shadow.ok)
  }

  datatype Run<+T> = Run(files: Files, result: Result<T>)

  /** `Ensure` from file to file. */
  function EnsureFiles(files: Files, cfg: Config, req: UserReq, opts: Opts, today: uint32): Run<Outcome> {
    match Load(files, cfg)
    case None => Run(files, Err(CannotLoad))
    case Some(db) => EnsureAndSave(files, db, cfg, req, opts, today)
  }

  function EnsureAndSave(files: Files, db: Db, cfg: Config, req: UserReq, opts: Opts, today: uint32): Run<Outcome> {
    match EnsureDb(db, req, opts, today)
    case Err(e) => Run(files, Err(e))
    case Ok(step) =>
      if step.outcome == Unchanged then Run(files, Ok(Unchanged))
      else
        var saved := Save(files, step.db, cfg);
        Run(saved.files, if saved.ok then Ok(step.outcome) else Err(CannotSave))
  }

  datatype Selector = ById(uid: uint32) | ByName(name: Bytes)

  function Selected(users: seq<Line<PasswdRow>>, selector: Selector): (r: Option<nat>)
    ensures r.Some? ==> IsRow(users, r.value)
  {
    match selector
    case ById(uid) => Find(IndexBy(users, UserId), uid)
    case ByName(name) => Find(IndexBy(users, UserName), name)
  }

  /** `EnsureGroup` from file to file, on a requirement that has got its defaults. */
  function EnsureGroupFiles(files: Files, cfg: Config, req: GroupReq, opts: Opts): Run<Outcome> {
    match Load(files, cfg)
    case None => Run(files, Err(CannotLoad))
    case Some(db) =>
      match EnsureGroup(LoadedTable(db.groups), req, opts)
      case Err(e) => Run(files, Err(e))
      case Ok(step) =>
        if step.outcome == Unchanged then Run(files, Ok(Unchanged))
        else
          var saved := Save(files, db.(groups := step.table.lines), cfg);
          Run(saved.files, if saved.ok then Ok(step.outcome) else Err(CannotSave))
  }

  /** `deleteRef` from file to file. */
  function DeleteFiles(files: Files, cfg: Config, selector: Selector): Run<()> {
    match Load(files, cfg)
    case None => Run(files, Err(CannotLoad))
    case Some(db) => DeleteAndSave(files, db, cfg, selector)
  }

  function DeleteAndSave(files: Files, db: Db, cfg: Config, selector: Selector): Run<()> {
    match Selected(db.users, selector)
    case None => Run(files, Err(NoSuchUser))
    case Some(at) =>
      match DeleteDb(db, at)
      case Err(e) => Run(files, Err(e))
      case Ok(after) =>
        var saved := Save(files, after, cfg);
        Run(saved.files, if saved.ok then Ok(()) else Err(CannotSave))
  }
}
