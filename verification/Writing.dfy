/** When the files that `Ensure` has changed in memory can be written, and where they are cut when they cannot. */
module Writing {
  import opened Bytes
  import opened ColonCodec
  import opened UnixRows
  import opened UserDb
  import opened UserDbLaws
  import opened Convergence

  /** Whatever was loaded can be written. */
  lemma LoadedIsPrintable(files: Files, db: Db, cfg: Config)
    requires Load(files, cfg) == Some(db)
    ensures AllPrintable(PasswdCodec(cfg.allowBadName), db.users)
    ensures AllPrintable(GroupCodec(cfg.allowBadName), db.groups)
    ensures AllPrintable(ShadowCodec(cfg.allowBadName), db.shadows)
  {
    PasswdLawful(cfg.allowBadName);
    GroupLawful(cfg.allowBadName);
    ShadowLawful(cfg.allowBadName);
    DecodedIsPrintable(PasswdCodec(cfg.allowBadName), files.passwd, db.users, cfg.allowBadLine);
    DecodedIsPrintable(GroupCodec(cfg.allowBadName), files.group, db.groups, cfg.allowBadLine);
    DecodedIsPrintable(ShadowCodec(cfg.allowBadName), files.shadow, db.shadows, cfg.allowBadLine);
  }

  lemma DecodedIsPrintable<T(!new)>(c: Codec<T>, data: Bytes, lines: seq<Line<T>>, allowBadLine: bool)
    requires Lawful(c) && DecodeFile(c, data, allowBadLine) == Some(lines)
    ensures AllPrintable(c, lines)
  {
    ScanNoNewline(data);
    ReadFile(c, ScanLines(data), lines, allowBadLine);
    forall i | 0 <= i < |lines| ensures EncodeLine(c, lines[i]).Some? {
      assert SurvivesReading(c, lines[i], allowBadLine);
    }
  }

  /** The first line that cannot be printed, or the number of lines. */
  function FirstBad<T>(c: Codec<T>, lines: seq<Line<T>>): (at: nat)
    ensures at <= |lines| && (at < |lines| ==> EncodeLine(c, lines[at]).None?)
    ensures forall i :: 0 <= i < at ==> EncodeLine(c, lines[i]).Some?
  {
    if lines == [] || EncodeLine(c, lines[0]).None? then 0 else 1 + FirstBad(c, lines[1..])
  }

  /** A file is written up to the first line that cannot be printed. */
  lemma WrittenUpTo<T>(c: Codec<T>, lines: seq<Line<T>>)
    ensures EncodeFile(c, lines).ok <==> AllPrintable(c, lines)
    ensures EncodeFile(c, lines).bytes == EncodeFile(c, lines[..FirstBad(c, lines)]).bytes
  {
    var at := FirstBad(c, lines);
    if at < |lines| {
      EncodeUpTo(c, lines, at);
    } else {
      EncodeAll(c, lines);
      assert lines[..at] == lines;
    }
  }

  // ------------------------------------------------------------------- users

  lemma GeneratedName(first: byte, n: uint32, allowBadName: bool)
    requires 'a' <= first <= 'z'
    ensures IsName([first] + FormatUint(n), allowBadName)
  {
    var name := [first] + FormatUint(n);
    UintLength(n);
    assert name[0] == first && !IsDigit(name[0]);
    forall i | 0 <= i < |name| ensures IsDigit(name[i]) || (name[i] == first && i == 0) {
      assert i > 0 ==> name[i] == FormatUint(n)[i - 1];
    }
    assert forall i :: 0 <= i < |name| ==> !IsBadNameChar(name, i);
  }

  /** The columns of a requirement that go into the row of its user. */
  predicate UserColumnsHold(req: UserReq, allowBadName: bool) {
    && (req.name == [] || IsName(req.name, allowBadName))
    && IsGeocs(req.displayName) && IsPath(req.homeDir) && IsPath(req.shell)
  }

  lemma NewRowHolds(req: UserReq, gid: uint32, nextUid: uint32, allowBadName: bool)
    ensures ValidPasswd(NewUser(req, gid, nextUid), allowBadName) <==> UserColumnsHold(req, allowBadName)
  {
    if req.name == [] {
      GeneratedName('u', if req.uid.Some? then req.uid.value else nextUid, allowBadName);
    }
  }

  lemma ChangedRowHolds(row: PasswdRow, req: UserReq, gid: uint32, allowBadName: bool)
    requires ValidPasswd(row, allowBadName)
    ensures ValidPasswd(UpdatedUser(row, req, gid), allowBadName) <==> UserColumnsHold(req, allowBadName)
  {
  }

  /** The user after `Ensure`, as it is made of the requirement. */
  lemma UserRowIs(db: Db, req: UserReq, opts: Opts, today: uint32)
    requires EnsureDb(db, req, opts, today).Ok? && EnsureDb(db, req, opts, today).value.outcome != Unchanged
    ensures AllGroups(db, req, opts).Ok?
    ensures var users, gid := EnsureDb(db, req, opts, today).value.db.users, AllGroups(db, req, opts).value.gid;
            match LookupUser(db.users, req)
            case None => users == db.users + [Parsed(NewUser(req, gid, NextUid(db.users)))]
            case Some(at) => IsRow(db.users, at)
                             && users == db.users[at := Parsed(UpdatedUser(db.users[at].entry, req, gid))]
  {
  }

  lemma UserRowHolds(db: Db, req: UserReq, opts: Opts, today: uint32, cfg: Config)
    requires AllPrintable(PasswdCodec(cfg.allowBadName), db.users)
    requires EnsureDb(db, req, opts, today).Ok? && EnsureDb(db, req, opts, today).value.outcome != Unchanged
    ensures var users, at := EnsureDb(db, req, opts, today).value.db.users, UserAt(db, req);
            IsRow(users, at)
                && (ValidPasswd(users[at].entry, cfg.allowBadName) <==> UserColumnsHold(req, cfg.allowBadName))
  {
    UserRowIs(db, req, opts, today);
    var gid := AllGroups(db, req, opts).value.gid;
    match LookupUser(db.users, req)
    case None => NewRowHolds(req, gid, NextUid(db.users), cfg.allowBadName);
    case Some(at) =>
      assert EncodeLine(PasswdCodec(cfg.allowBadName), db.users[at]).Some?;
      ChangedRowHolds(db.users[at].entry, req, gid, cfg.allowBadName);
  }

  // ------------------------------------------------------------------ groups

  ghost predicate IsLast(at: seq<nat>, j: nat) { j < |at| && forall k :: j < k < |at| ==> at[k] != at[j] }

  lemma {:induction false} LastOccurrence(at: seq<nat>, i: nat) returns (j: nat)
    requires i in at
    ensures IsLast(at, j) && at[j] == i
    decreases |at|
  {
    var n := |at| - 1;
    if at[n] == i {
      j := n;
    } else {
      j := LastOccurrence(at[..n], i);
    }
  }

  /** Groups that were found, by names asked for one after the other: each goes by the last name it was asked for by. */
  ghost predicate NamesFollow(before: seq<Line<GroupRow>>, lines: seq<Line<GroupRow>>, at: seq<nat>, names: seq<Bytes>,
                              allowBadName: bool)
  {
    && |at| == |names| && |before| <= |lines|
    && (forall i :: 0 <= i < |lines| && i !in at ==> i < |before| && lines[i] == before[i])
    && (forall j: nat :: IsLast(at, j) ==> IsNamed(lines, at[j], names[j], allowBadName))
  }

  ghost predicate IsNamed(lines: seq<Line<GroupRow>>, i: nat, name: Bytes, allowBadName: bool) {
    && IsRow(lines, i)
    && (if name == [] then IsName(lines[i].entry.name, allowBadName) else lines[i].entry.name == name)
  }

  lemma StepNames(before: seq<Line<GroupRow>>, t: GroupTable, at: seq<nat>, names: seq<Bytes>, req: GroupReq,
                  opts: Opts,
                  allowBadName: bool)
    requires TableOk(t) && NamesFollow(before, t.lines, at, names, allowBadName)
    requires EnsureGroup(t, req, opts).Ok? && (req.name == [] ==> req.gid == None)
    ensures var s := EnsureGroup(t, req, opts).value;
            NamesFollow(before, s.table.lines, at + [s.at], names + [req.name], allowBadName)
  {
    var s := EnsureGroup(t, req, opts).value;
    var lines, at' := s.table.lines, at + [s.at];
    OnlyOneChanges(t, req, opts);
    if req.name == [] {
      GeneratedName('g', NextGid(t.lines), allowBadName);
    }
    forall i | 0 <= i < |lines| && i !in at' ensures i < |before| && lines[i] == before[i] {
      assert i !in at && i != s.at;
    }
    forall j: nat | IsLast(at', j) ensures IsNamed(lines, at'[j], (names + [req.name])[j], allowBadName) {
      if j < |at| {
        assert at'[|at|] == s.at && at'[j] == at[j];
        assert forall k :: j < k < |at| ==> at[k] == at'[k];
        assert IsLast(at, j) && IsNamed(t.lines, at[j], names[j], allowBadName);
      }
    }
  }

  lemma OnlyOneChanges(t: GroupTable, req: GroupReq, opts: Opts)
    requires TableOk(t) && EnsureGroup(t, req, opts).Ok?
    ensures var s := EnsureGroup(t, req, opts).value;
            && IsRow(s.table.lines, s.at) && |t.lines| <= |s.table.lines|
            && (forall i :: 0 <= i < |s.table.lines| && i != s.at ==> i < |t.lines| && s.table.lines[i] == t.lines[i])
            && (req.name != [] ==> s.table.lines[s.at].entry.name == req.name)
            && (req == NO_GROUP ==> s.table.lines[s.at].entry.name == "g" + FormatUint(NextGid(t.lines)))
  {
  }

  lemma FirstNames(t: GroupTable, req: GroupReq, opts: Opts, allowBadName: bool)
    requires TableOk(t) && EnsureGroup(t, req, opts).Ok? && (req.name == [] ==> req.gid == None)
    ensures var s := EnsureGroup(t, req, opts).value;
            NamesFollow(t.lines, s.table.lines, [s.at], [req.name], allowBadName)
  {
    var none: seq<nat>, nameless: seq<Bytes> := [], [];
    assert NamesFollow(t.lines, t.lines, none, nameless, allowBadName);
    StepNames(t.lines, t, none, nameless, req, opts, allowBadName);
    assert none + [EnsureGroup(t, req, opts).value.at] == [EnsureGroup(t, req, opts).value.at];
    assert nameless + [req.name] == [req.name];
  }

  function NamesOf(reqs: seq<GroupReq>): (names: seq<Bytes>)
    ensures |names| == |reqs|
  {
    seq(|reqs|, i requires 0 <= i < |reqs| => GroupOrDefaults(reqs[i], []).name)
  }

  lemma Append<T>(a: seq<T>, b: seq<T>, x: T)
    ensures a + b + [x] == a + (b + [x])
  {
  }

  lemma StepAfter(before: seq<Line<GroupRow>>, t: GroupTable, at: seq<nat>, names: seq<Bytes>, refs: seq<nat>,
                  done: seq<Bytes>, req: GroupReq, opts: Opts, allowBadName: bool)
    requires TableOk(t) && NamesFollow(before, t.lines, at + refs, names + done, allowBadName)
    requires EnsureGroup(t, req, opts).Ok? && (req.name == [] ==> req.gid == None)
    ensures var s := EnsureGroup(t, req, opts).value;
            NamesFollow(before, s.table.lines, at + (refs + [s.at]), names + (done + [req.name]), allowBadName)
  {
    StepNames(before, t, at + refs, names + done, req, opts, allowBadName);
    Append(at, refs, EnsureGroup(t, req, opts).value.at);
    Append(names, done, req.name);
  }

  lemma LastNames(before: seq<Line<GroupRow>>, t: GroupTable, at: seq<nat>, names: seq<Bytes>, reqs: seq<GroupReq>,
                  opts: Opts, allowBadName: bool)
    requires TableOk(t) && reqs != [] && EnsureGroups(t, reqs, opts).refs.Ok?
    requires var r := EnsureGroups(t, reqs[..|reqs| - 1], opts);
             r.refs.Ok?
                 && NamesFollow(before, r.table.lines, at + r.refs.value, names + NamesOf(reqs[..|reqs| - 1]),
                                allowBadName)
    ensures var r := EnsureGroups(t, reqs, opts);
            NamesFollow(before, r.table.lines, at + r.refs.value, names + NamesOf(reqs), allowBadName)
  {
    var front, req := reqs[..|reqs| - 1], GroupOrDefaults(reqs[|reqs| - 1], []);
    var r := EnsureGroups(t, front, opts);
    LastEnsured(t, reqs, opts);
    NamesOfLast(reqs);
    StepAfter(before, r.table, at, names, r.refs.value, NamesOf(front), req, opts, allowBadName);
  }

  lemma NamesOfLast(reqs: seq<GroupReq>)
    requires reqs != []
    ensures NamesOf(reqs[..|reqs| - 1]) + [GroupOrDefaults(reqs[|reqs| - 1], []).name] == NamesOf(reqs)
  {
  }

  lemma {:induction false} StepsNames(before: seq<Line<GroupRow>>, t: GroupTable, at: seq<nat>, names: seq<Bytes>,
                                      reqs: seq<GroupReq>, opts: Opts, allowBadName: bool)
    requires TableOk(t) && NamesFollow(before, t.lines, at, names, allowBadName)
    requires EnsureGroups(t, reqs, opts).refs.Ok?
    ensures var r := EnsureGroups(t, reqs, opts);
            NamesFollow(before, r.table.lines, at + r.refs.value, names + NamesOf(reqs), allowBadName)
    decreases |reqs|
  {
    if reqs == [] {
      assert at + [] == at && names + NamesOf(reqs) == names;
    } else {
      LastEnsured(t, reqs, opts);
      StepsNames(before, t, at, names, reqs[..|reqs| - 1], opts, allowBadName);
      LastNames(before, t, at, names, reqs, opts, allowBadName);
    }
  }

  /** The names that the groups of a requirement are asked for by, the primary one first. */
  function AskedNames(req: UserReq): (names: seq<Bytes>)
    ensures |names| == 1 + |req.groups|
  {
    [GroupOrDefaults(req.group, req.name).name] + NamesOf(req.groups)
  }

  /** Every group is asked for by a name that holds, or at least the last time. */
  ghost predicate GroupNamesHold(db: Db, req: UserReq, opts: Opts, allowBadName: bool)
    requires AllGroups(db, req, opts).Ok?
  {
    LastNamesHold(WantedAt(db, req, opts), AskedNames(req), allowBadName)
  }

  ghost predicate LastNamesHold(at: seq<nat>, names: seq<Bytes>, allowBadName: bool) {
    forall j: nat :: IsLast(at, j) && j < |names| ==> NameHolds(names[j], allowBadName)
  }

  /** Without a name one is made up. */
  predicate NameHolds(name: Bytes, allowBadName: bool) { name == [] || IsName(name, allowBadName) }

  /** It is enough that all names hold that are asked for, and needed where no two requirements find the same group. */
  lemma AllNamesHold(db: Db, req: UserReq, opts: Opts, allowBadName: bool)
    requires AllGroups(db, req, opts).Ok?
    ensures var at, names := WantedAt(db, req, opts), AskedNames(req);
            && |at| == |names|
            && ((forall j :: 0 <= j < |names| ==> NameHolds(names[j], allowBadName)) ==>
                  GroupNamesHold(db, req, opts, allowBadName))
            && ((forall i, j :: 0 <= i < j < |at| ==> at[i] != at[j]) && GroupNamesHold(db, req, opts, allowBadName) ==>
                  forall j :: 0 <= j < |names| ==> NameHolds(names[j], allowBadName))
  {
    var at, names := WantedAt(db, req, opts), AskedNames(req);
    AllGroupsAreRows(db, req, opts);
    if (forall i, j :: 0 <= i < j < |at| ==> at[i] != at[j]) && GroupNamesHold(db, req, opts, allowBadName) {
      forall j | 0 <= j < |names| ensures NameHolds(names[j], allowBadName) {
        assert IsLast(at, j);
      }
    }
  }

  ghost predicate NamesAreValid(lines: seq<Line<GroupRow>>, allowBadName: bool) {
    forall i :: 0 <= i < |lines| && lines[i].Parsed? ==> IsName(lines[i].entry.name, allowBadName)
  }

  lemma NamesFollowed(before: seq<Line<GroupRow>>, lines: seq<Line<GroupRow>>, at: seq<nat>, names: seq<Bytes>,
                      allowBadName: bool)
    requires NamesFollow(before, lines, at, names, allowBadName) && NamesAreValid(before, allowBadName)
    ensures NamesAreValid(lines, allowBadName) <==> LastNamesHold(at, names, allowBadName)
  {
    if NamesAreValid(lines, allowBadName) {
      forall j: nat | IsLast(at, j) ensures NameHolds(names[j], allowBadName) {
        assert IsNamed(lines, at[j], names[j], allowBadName);
      }
    }
    if LastNamesHold(at, names, allowBadName) {
      forall i | 0 <= i < |lines| && lines[i].Parsed? ensures IsName(lines[i].entry.name, allowBadName) {
        if i in at {
          var j := LastOccurrence(at, i);
          assert IsNamed(lines, at[j], names[j], allowBadName);
        }
      }
    }
  }

  lemma AllGroupsFollow(db: Db, req: UserReq, opts: Opts, allowBadName: bool)
    requires AllGroups(db, req, opts).Ok?
    ensures NamesFollow(db.groups, AllGroups(db, req, opts).value.table.lines, WantedAt(db, req, opts), AskedNames(req),
                        allowBadName)
  {
    var t, greq := LoadedTable(db.groups), GroupOrDefaults(req.group, req.name);
    var s := EnsureGroup(t, greq, opts).value;
    EnsureGroupKeeps(t, greq, opts);
    FirstNames(t, greq, opts, allowBadName);
    StepsNames(db.groups, s.table, [s.at], [greq.name], req.groups, opts, allowBadName);
  }

  lemma AllGroupsNames(db: Db, req: UserReq, opts: Opts, allowBadName: bool)
    requires AllGroups(db, req, opts).Ok? && NamesAreValid(db.groups, allowBadName)
    ensures NamesAreValid(AllGroups(db, req, opts).value.table.lines, allowBadName)
       <==> GroupNamesHold(db, req, opts, allowBadName)
  {
    AllGroupsFollow(db, req, opts, allowBadName);
    NamesFollowed(db.groups, AllGroups(db, req, opts).value.table.lines, WantedAt(db, req, opts), AskedNames(req),
                  allowBadName);
  }

  lemma OthersIn(names: seq<Bytes>, a: Bytes, b: Bytes, u: Bytes)
    ensures u in Others(names, a, b) <==> u in names && u != a && u != b
  {
    CountWithout(names, a, u);
    CountWithout(Without(names, a), b, u);
    CountPositive(names, u);
    CountPositive(Others(names, a, b), u);
  }

  /** With names of users that hold, groups can be printed as far as their own names hold. */
  lemma GroupsPrintable(before: seq<Line<GroupRow>>, after: seq<Line<GroupRow>>, a: Bytes, b: Bytes, wanted: seq<nat>,
                        allowBadName: bool)
    requires AllPrintable(GroupCodec(allowBadName), before) && RestKept(before, after, a, b, wanted)
    requires IsName(a, allowBadName) && IsName(b, allowBadName)
    ensures forall i :: 0 <= i < |after| ==>
              (EncodeLine(GroupCodec(allowBadName), after[i]).Some? <==> RowNameHolds(after, i, allowBadName))
  {
    var c := GroupCodec(allowBadName);
    forall i | 0 <= i < |after|
      ensures EncodeLine(c, after[i]).Some? <==> RowNameHolds(after, i, allowBadName)
    {
      if after[i].Parsed? {
        forall u | u in after[i].entry.userNames ensures IsName(u, allowBadName) {
          OthersIn(after[i].entry.userNames, a, b, u);
          if i < |before| && u != a && u != b {
            assert EncodeLine(c, before[i]).Some?;
            OthersIn(before[i].entry.userNames, a, b, u);
          }
        }
      }
    }
  }

  ghost predicate RowNameHolds(lines: seq<Line<GroupRow>>, i: nat, allowBadName: bool)
    requires i < |lines|
  {
    lines[i].Parsed? ==> IsName(lines[i].entry.name, allowBadName)
  }

  // ------------------------------------------------------------ the three files

  lemma UsersWritten(db: Db, req: UserReq, opts: Opts, today: uint32, cfg: Config)
    requires AllPrintable(PasswdCodec(cfg.allowBadName), db.users)
    requires EnsureDb(db, req, opts, today).Ok? && EnsureDb(db, req, opts, today).value.outcome != Unchanged
    ensures var c, users := PasswdCodec(cfg.allowBadName), EnsureDb(db, req, opts, today).value.db.users;
            if UserColumnsHold(req, cfg.allowBadName) then EncodeFile(c, users).ok
            else EncodeFile(c, users) == Written(EncodeFile(c, db.users[..UserAt(db, req)]).bytes, false)
  {
    var c, users, at := PasswdCodec(cfg.allowBadName), EnsureDb(db, req, opts, today).value.db.users, UserAt(db, req);
    UserRowHolds(db, req, opts, today, cfg);
    ChangedUser(db, req, opts, today);
    if UserColumnsHold(req, cfg.allowBadName) {
      EncodeAll(c, users);
    } else {
      EncodeUpTo(c, users, at);
      assert users[..at] == db.users[..at];
    }
  }

  /** The groups after `Ensure` can be printed as far as the names of all groups, once they are ensured, hold. */
  lemma GroupsWritten(db: Db, req: UserReq, opts: Opts, today: uint32, cfg: Config)
    requires AllPrintable(PasswdCodec(cfg.allowBadName), db.users)
    requires AllPrintable(GroupCodec(cfg.allowBadName), db.groups)
    requires EnsureDb(db, req, opts, today).Ok? && EnsureDb(db, req, opts, today).value.outcome != Unchanged
    requires UserColumnsHold(req, cfg.allowBadName)
    ensures AllGroups(db, req, opts).Ok?
    ensures var c, groups := GroupCodec(cfg.allowBadName), EnsureDb(db, req, opts, today).value.db.groups;
            && (EncodeFile(c, groups).ok <==> GroupNamesHold(db, req, opts, cfg.allowBadName))
            && (forall i :: 0 <= i < |groups| ==>
                  (EncodeLine(c, groups[i]).Some? <==> RowNameHolds(groups, i, cfg.allowBadName)))
            && (forall i :: 0 <= i < |groups| && !RowNameHolds(groups, i, cfg.allowBadName) ==>
                  i in WantedAt(db, req, opts))
  {
    var c, groups := GroupCodec(cfg.allowBadName), EnsureDb(db, req, opts, today).value.db.groups;
    var b := cfg.allowBadName;
    EnsureKeepsRest(db, req, opts, today);
    var wanted, at := WantedAt(db, req, opts), UserAt(db, req);
    UserRowHolds(db, req, opts, today, cfg);
    var name := EnsureDb(db, req, opts, today).value.db.users[at].entry.name;
    var former := if at < |db.users| && db.users[at].Parsed? then db.users[at].entry.name else name;
    FormerHolds(db.users, at, b);
    GroupsPrintable(db.groups, groups, former, name, wanted, b);
    LoadedNames(db.groups, b);
    EnsuredNames(db, req, opts, today, b);
    WrittenUpTo(c, groups);
  }

  /** The names of groups are what they are once all groups are ensured; those not asked for are as they were. */
  lemma EnsuredNames(db: Db, req: UserReq, opts: Opts, today: uint32, allowBadName: bool)
    requires EnsureDb(db, req, opts, today).Ok? && EnsureDb(db, req, opts, today).value.outcome != Unchanged
    requires NamesAreValid(db.groups, allowBadName)
    ensures AllGroups(db, req, opts).Ok?
    ensures var groups := EnsureDb(db, req, opts, today).value.db.groups;
            && (NamesAreValid(groups, allowBadName) <==> GroupNamesHold(db, req, opts, allowBadName))
            && (forall i :: 0 <= i < |groups| && !RowNameHolds(groups, i, allowBadName) ==>
                  i in WantedAt(db, req, opts))
  {
    var groups, lines := EnsureDb(db, req, opts, today).value.db.groups, AllGroups(db, req, opts).value.table.lines;
    SameNames(db, req, opts, today);
    AllGroupsNames(db, req, opts, allowBadName);
    AllGroupsFollow(db, req, opts, allowBadName);
    SameNamesHold(lines, groups, allowBadName);
    UnwantedHold(db.groups, lines, WantedAt(db, req, opts), AskedNames(req), allowBadName);
  }

  lemma SameNamesHold(lines: seq<Line<GroupRow>>, groups: seq<Line<GroupRow>>, allowBadName: bool)
    requires SameButMembers(lines, groups)
    ensures NamesAreValid(groups, allowBadName) <==> NamesAreValid(lines, allowBadName)
    ensures forall i :: 0 <= i < |lines| ==>
              (RowNameHolds(groups, i, allowBadName) <==> RowNameHolds(lines, i, allowBadName))
  {
    assert forall i :: 0 <= i < |lines| && lines[i].Parsed? ==>
             groups[i].Parsed? && groups[i].entry.name == lines[i].entry.name;
  }

  lemma UnwantedHold(before: seq<Line<GroupRow>>, lines: seq<Line<GroupRow>>, at: seq<nat>, names: seq<Bytes>,
                     allowBadName: bool)
    requires NamesFollow(before, lines, at, names, allowBadName) && NamesAreValid(before, allowBadName)
    ensures forall i :: 0 <= i < |lines| && !RowNameHolds(lines, i, allowBadName) ==> i in at
  {
  }

  lemma SameNames(db: Db, req: UserReq, opts: Opts, today: uint32)
    requires EnsureDb(db, req, opts, today).Ok? && EnsureDb(db, req, opts, today).value.outcome != Unchanged
    ensures AllGroups(db, req, opts).Ok?
    ensures SameButMembers(AllGroups(db, req, opts).value.table.lines, EnsureDb(db, req, opts, today).value.db.groups)
  {
    GroupsAre(db, req, opts, today);
    var all := AllGroups(db, req, opts).value;
    match LookupUser(db.users, req)
    case None => JoinedSame(all.table.lines, all.refs, NewUser(req, all.gid, NextUid(db.users)).name);
    case Some(at) =>
      var former := db.users[at].entry;
      RegroupedSame(all.table.lines, all.refs, former.name, UpdatedUser(former, req, all.gid).name);
  }

  lemma JoinedSame(lines: seq<Line<GroupRow>>, refs: seq<nat>, name: Bytes)
    ensures SameButMembers(lines, JoinedGroups(lines, refs, name))
  {
  }

  lemma RegroupedSame(lines: seq<Line<GroupRow>>, refs: seq<nat>, former: Bytes, name: Bytes)
    ensures SameButMembers(lines, RegroupedGroups(lines, refs, former, name))
  {
  }

  lemma GroupsAre(db: Db, req: UserReq, opts: Opts, today: uint32)
    requires EnsureDb(db, req, opts, today).Ok? && EnsureDb(db, req, opts, today).value.outcome != Unchanged
    ensures AllGroups(db, req, opts).Ok?
    ensures var groups, all := EnsureDb(db, req, opts, today).value.db.groups, AllGroups(db, req, opts).value;
            match LookupUser(db.users, req)
            case None => groups
                         == JoinedGroups(all.table.lines, all.refs, NewUser(req, all.gid, NextUid(db.users)).name)
            case Some(at) =>
              IsRow(db.users, at)
              && var former := db.users[at].entry;
                 groups
                     == RegroupedGroups(all.table.lines, all.refs, former.name, UpdatedUser(former, req, all.gid).name)
  {
  }

  lemma FormerHolds(users: seq<Line<PasswdRow>>, at: nat, allowBadName: bool)
    requires AllPrintable(PasswdCodec(allowBadName), users)
    ensures IsRow(users, at) ==> IsName(users[at].entry.name, allowBadName)
  {
    if IsRow(users, at) {
      assert EncodeLine(PasswdCodec(allowBadName), users[at]).Some?;
    }
  }

  lemma LoadedNames(groups: seq<Line<GroupRow>>, allowBadName: bool)
    requires AllPrintable(GroupCodec(allowBadName), groups)
    ensures NamesAreValid(groups, allowBadName)
  {
    forall i | 0 <= i < |groups| && groups[i].Parsed? ensures IsName(groups[i].entry.name, allowBadName) {
      assert EncodeLine(GroupCodec(allowBadName), groups[i]).Some?;
    }
  }

  /** What becomes of the files when `Ensure` has changed the database. */
  ghost predicate WrittenOrCut(files: Files, db: Db, cfg: Config, req: UserReq, opts: Opts, step: EnsureStep,
                               run: Run<Outcome>)
    requires AllGroups(db, req, opts).Ok?
  {
    var users, groups := PasswdCodec(cfg.allowBadName), GroupCodec(cfg.allowBadName);
    var passwd, at := EncodeFile(users, step.db.users), FirstBad(groups, step.db.groups);
    if !UserColumnsHold(req, cfg.allowBadName) then
      run == Run(files.(passwd := EncodeFile(users, db.users[..UserAt(db, req)]).bytes), Err(CannotSave))
    else if !GroupNamesHold(db, req, opts, cfg.allowBadName) then
      && at < |step.db.groups| && at in WantedAt(db, req, opts) && !RowNameHolds(step.db.groups, at, cfg.allowBadName)
      && (forall i :: 0 <= i < at ==> RowNameHolds(step.db.groups, i, cfg.allowBadName))
      && run
         == Run(files.(passwd := passwd.bytes, group := EncodeFile(groups, step.db.groups[..at]).bytes),
                Err(CannotSave))
    else
      run == Run(Files(passwd.bytes, EncodeFile(groups, step.db.groups).bytes,
                       EncodeFile(ShadowCodec(cfg.allowBadName), step.db.shadows).bytes), Ok(step.outcome))
  }

  /** MAIN: `Ensure` can write what it has changed exactly if the columns asked for hold and so does the last name by
      which each group is asked for. Otherwise it cuts the passwd file off at the user, or the group file at the first
      group with a bad name after the passwd file was written, and leaves the other files. */
  lemma EnsureIsWritten(files: Files, db: Db, cfg: Config, req: UserReq, opts: Opts, today: uint32)
    requires Load(files, cfg) == Some(db) && EnsureDb(db, req, opts, today).Ok?
    ensures var step, run := EnsureDb(db, req, opts, today).value, EnsureFiles(files, cfg, req, opts, today);
            step.outcome != Unchanged ==>
              && AllGroups(db, req, opts).Ok?
              && (run.result.Ok? <==>
                    UserColumnsHold(req, cfg.allowBadName) && GroupNamesHold(db, req, opts, cfg.allowBadName))
              && WrittenOrCut(files, db, cfg, req, opts, step, run)
  {
    var step := EnsureDb(db, req, opts, today).value;
    if step.outcome != Unchanged {
      LoadedIsPrintable(files, db, cfg);
      ChangedIsSaved(files, db, cfg, req, opts, today);
      UsersWritten(db, req, opts, today, cfg);
      UserRowIs(db, req, opts, today);
      if UserColumnsHold(req, cfg.allowBadName) {
        GroupsWritten(db, req, opts, today, cfg);
        WrittenUpTo(GroupCodec(cfg.allowBadName), step.db.groups);
        ShadowsWritten(db, req, opts, today, cfg);
      }
    }
  }

  lemma ShadowsWritten(db: Db, req: UserReq, opts: Opts, today: uint32, cfg: Config)
    requires AllPrintable(PasswdCodec(cfg.allowBadName), db.users)
    requires AllPrintable(ShadowCodec(cfg.allowBadName), db.shadows)
    requires EnsureDb(db, req, opts, today).Ok? && EnsureDb(db, req, opts, today).value.outcome != Unchanged
    requires UserColumnsHold(req, cfg.allowBadName)
    ensures EncodeFile(ShadowCodec(cfg.allowBadName), EnsureDb(db, req, opts, today).value.db.shadows).ok
  {
    var c, after, at := ShadowCodec(cfg.allowBadName), EnsureDb(db, req, opts, today).value.db, UserAt(db, req);
    UserRowHolds(db, req, opts, today, cfg);
    EnsureKeepsRest(db, req, opts, today);
    match LookupUser(db.users, req)
    case None =>
      NewShadowIs(db, req, opts, today);
      EncodeAll(c, after.shadows);
    case Some(_) =>
      forall i | 0 <= i < |after.shadows| ensures EncodeLine(c, after.shadows[i]).Some? {
        assert EncodeLine(c, db.shadows[i]).Some?;
      }
      EncodeAll(c, after.shadows);
  }

  lemma NewShadowIs(db: Db, req: UserReq, opts: Opts, today: uint32)
    requires EnsureDb(db, req, opts, today).Ok? && EnsureDb(db, req, opts, today).value.outcome != Unchanged
    requires LookupUser(db.users, req) == None
    ensures var after, n := EnsureDb(db, req, opts, today).value.db, |db.users|;
            IsRow(after.users, n) && after.shadows == db.shadows + [Parsed(NewShadow(after.users[n].entry.name, today))]
  {
  }

  /** MAIN: a group that was ensured alone can be written exactly if its name holds. Otherwise the group file is cut
      off at the group, after the passwd file was written as it was. */
  lemma GroupIsWritten(files: Files, db: Db, cfg: Config, req: GroupReq, opts: Opts)
    requires Load(files, cfg) == Some(db) && EnsureGroup(LoadedTable(db.groups), req, opts).Ok?
    requires req.name == [] ==> req.gid == None
    ensures var s, run := EnsureGroup(LoadedTable(db.groups), req, opts).value, EnsureGroupFiles(files, cfg, req, opts);
            var users, groups := PasswdCodec(cfg.allowBadName), GroupCodec(cfg.allowBadName);
            var passwd, shadow := EncodeFile(users, db.users), EncodeFile(ShadowCodec(cfg.allowBadName), db.shadows);
            s.outcome != Unchanged ==>
              && (run.result.Ok? <==> NameHolds(req.name, cfg.allowBadName))
              && s.at <= |db.groups|
              && run == if NameHolds(req.name, cfg.allowBadName)
                        then Run(Files(passwd.bytes, EncodeFile(groups, s.table.lines).bytes, shadow.bytes),
                                 Ok(s.outcome))
                        else Run(files.(passwd := passwd.bytes, group := EncodeFile(groups, db.groups[..s.at]).bytes),
                                 Err(CannotSave))
  {
    if EnsureGroup(LoadedTable(db.groups), req, opts).value.outcome != Unchanged {
      LoadedIsPrintable(files, db, cfg);
      EncodeAll(PasswdCodec(cfg.allowBadName), db.users);
      EncodeAll(ShadowCodec(cfg.allowBadName), db.shadows);
      GroupFileWritten(db.groups, req, opts, cfg.allowBadName);
    }
  }

  lemma GroupFileWritten(groups: seq<Line<GroupRow>>, req: GroupReq, opts: Opts, allowBadName: bool)
    requires AllPrintable(GroupCodec(allowBadName), groups) && EnsureGroup(LoadedTable(groups), req, opts).Ok?
    requires req.name == [] ==> req.gid == None
    ensures var s, c := EnsureGroup(LoadedTable(groups), req, opts).value, GroupCodec(allowBadName);
            s.outcome != Unchanged ==>
              && s.at <= |groups|
              && if NameHolds(req.name, allowBadName) then EncodeFile(c, s.table.lines).ok
                 else EncodeFile(c, s.table.lines) == Written(EncodeFile(c, groups[..s.at]).bytes, false)
  {
    var s, c := EnsureGroup(LoadedTable(groups), req, opts).value, GroupCodec(allowBadName);
    OnlyOneChanges(LoadedTable(groups), req, opts);
    EnsuredRowHolds(groups, req, opts, allowBadName);
    if s.outcome != Unchanged && NameHolds(req.name, allowBadName) {
      EncodeAll(c, s.table.lines);
    } else if s.outcome != Unchanged {
      EncodeUpTo(c, s.table.lines, s.at);
      assert s.table.lines[..s.at] == groups[..s.at];
    }
  }

  lemma EnsuredRowHolds(groups: seq<Line<GroupRow>>, req: GroupReq, opts: Opts, allowBadName: bool)
    requires AllPrintable(GroupCodec(allowBadName), groups) && EnsureGroup(LoadedTable(groups), req, opts).Ok?
    requires req.name == [] ==> req.gid == None
    ensures var s, c := EnsureGroup(LoadedTable(groups), req, opts).value, GroupCodec(allowBadName);
            s.outcome != Unchanged ==>
              && IsRow(s.table.lines, s.at)
              && (EncodeLine(c, s.table.lines[s.at]).Some? <==> NameHolds(req.name, allowBadName))
  {
    if EnsureGroup(LoadedTable(groups), req, opts).value.outcome != Unchanged {
      EnsuredRowIs(groups, req, opts);
    }
    match LookupGroup(LoadedTable(groups), req)
    case None => NewGroupHolds(req, NextGid(groups), allowBadName);
    case Some(at) =>
      assert EncodeLine(GroupCodec(allowBadName), groups[at]).Some?;
      ChangedGroupHolds(groups[at].entry, req, allowBadName);
  }

  lemma EnsuredRowIs(groups: seq<Line<GroupRow>>, req: GroupReq, opts: Opts)
    requires EnsureGroup(LoadedTable(groups), req, opts).Ok?
    requires EnsureGroup(LoadedTable(groups), req, opts).value.outcome != Unchanged
    ensures var s := EnsureGroup(LoadedTable(groups), req, opts).value;
            match LookupGroup(LoadedTable(groups), req)
            case None => s.at < |s.table.lines| && s.table.lines[s.at] == Parsed(NewGroup(req, NextGid(groups)))
            case Some(at) =>
              && s.at == at < |s.table.lines| && IsRow(groups, at)
              && s.table.lines[at] == Parsed(UpdatedGroup(groups[at].entry, req))
  {
  }

  lemma NewGroupHolds(req: GroupReq, nextGid: uint32, allowBadName: bool)
    requires req.name == [] ==> req.gid == None
    ensures ValidGroup(NewGroup(req, nextGid), allowBadName) <==> NameHolds(req.name, allowBadName)
  {
    if req.name == [] {
      GeneratedName('g', nextGid, allowBadName);
    }
  }

  lemma ChangedGroupHolds(row: GroupRow, req: GroupReq, allowBadName: bool)
    requires ValidGroup(row, allowBadName)
    ensures ValidGroup(UpdatedGroup(row, req), allowBadName) <==> NameHolds(req.name, allowBadName)
  {
  }
}
