/** Inputs for which the promises are not kept, as far as the theorems name conditions that fail. */
module Witnesses {
  import opened Bytes
  import opened ColonCodec
  import opened UnixRows
  import opened UserDb
  import opened UserDbLaws
  import opened Convergence
  import opened Writing

  const NO_FILES: Files := Files([], [], [])
  const ALLOWED: Opts := Opts(true, true)

  lemma {:induction false} AllowedGroups(t: GroupTable, reqs: seq<GroupReq>)
    requires TableOk(t)
    ensures EnsureGroups(t, reqs, ALLOWED).refs.Ok?
    decreases |reqs|
  {
    if reqs != [] {
      AllowedGroups(t, reqs[..|reqs| - 1]);
    }
  }

  lemma AllGroupsAllowed(db: Db, req: UserReq)
    ensures AllGroups(db, req, ALLOWED).Ok?
  {
    var t, greq := LoadedTable(db.groups), GroupOrDefaults(req.group, req.name);
    EnsureGroupKeeps(t, greq, ALLOWED);
    AllowedGroups(EnsureGroup(t, greq, ALLOWED).value.table, req.groups);
  }

  lemma LettersAreName(s: Bytes, allowBadName: bool)
    requires 0 < |s| <= 32 && forall i :: 0 <= i < |s| ==> 'a' <= s[i] <= 'z'
    ensures IsName(s, allowBadName)
  {
    assert forall i :: 0 <= i < |s| ==> !IsDigit(s[i]) && IsLetterLike(s, i) && !IsBadNameChar(s, i);
    assert s[0] != '.';
  }

  // ---------------------------------------------- a shell that the reload cuts

  /** A user whose shell ends in a carriage return. */
  const CUT: UserReq := UserReq("u", [], None, GroupReq(None, "u"), [], "/sh\r", "/u")

  lemma CutEnsured(today: uint32)
    ensures EnsureDb(Db([], [], []), UserOrDefaults(CUT), ALLOWED, today).Ok?
    ensures EnsureDb(Db([], [], []), UserOrDefaults(CUT), ALLOWED, today).value.outcome == Created
  {
    AllGroupsAllowed(Db([], [], []), UserOrDefaults(CUT));
  }

  lemma CutHolds(cfg: Config)
    ensures var db, req := Db([], [], []), UserOrDefaults(CUT);
            UserColumnsHold(req, cfg.allowBadName) && AllGroups(db, req, ALLOWED).Ok?
                && GroupNamesHold(db, req, ALLOWED, cfg.allowBadName)
  {
    var db, req := Db([], [], []), UserOrDefaults(CUT);
    AllGroupsAllowed(db, req);
    LettersAreName("u", cfg.allowBadName);
    LettersAreName(DEFAULT_GROUP_NAME, cfg.allowBadName);
    assert AskedNames(req) == ["u", DEFAULT_GROUP_NAME];
  }

  /** MAIN: such a user is accepted where there are no files yet, and never found as it was asked for. */
  lemma CutShellIsAccepted(cfg: Config, today: uint32, opts: Opts, today': uint32)
    ensures var req := UserOrDefaults(CUT);
            var first := EnsureFiles(NO_FILES, cfg, req, ALLOWED, today);
            && first.result == Ok(Created)
            && EnsureFiles(first.files, cfg, req, opts, today').result != Ok(Unchanged)
  {
    var db, req := Db([], [], []), UserOrDefaults(CUT);
    assert Load(NO_FILES, cfg) == Some(db);
    CutEnsured(today);
    CutHolds(cfg);
    EnsureIsWritten(NO_FILES, db, cfg, req, ALLOWED, today);
    CutShellNeverSettles(NO_FILES, db, cfg, req, ALLOWED, today, opts, today');
  }

  // -------------------------------------------------- files with a single user

  const USER: PasswdRow := PasswdRow("u", "x", 1000, 5, [], "/u", "/sh")

  function OneUser(groups: seq<Line<GroupRow>>): Db { Db([Parsed(USER)], groups, [Parsed(NewShadow("u", 0))]) }

  /** There are files with such contents. */
  lemma OneUserSaved(groups: seq<Line<GroupRow>>, cfg: Config) returns (files: Files)
    requires AllStable(GroupCodec(cfg.allowBadName), groups, cfg.allowBadLine)
    requires forall i :: 0 <= i < |groups| ==> groups[i].Parsed?
    ensures Load(files, cfg) == Some(OneUser(groups)) && Save(files, OneUser(groups), cfg) == Saved(files, true)
  {
    var db := OneUser(groups);
    UserStable(cfg);
    NewShadowStable(cfg);
    OneUserCompact(groups);
    files := Save(NO_FILES, db, cfg).files;
    OneUserLoaded(db, cfg);
    SavedAgain(files, db, cfg);
  }

  lemma OneUserLoaded(db: Db, cfg: Config)
    requires StableDb(db, cfg) && Compact(db) == db
    ensures Save(NO_FILES, db, cfg).ok && Load(Save(NO_FILES, db, cfg).files, cfg) == Some(db)
  {
    SavedIsLoaded(NO_FILES, db, cfg);
  }

  lemma OneUserCompact(groups: seq<Line<GroupRow>>)
    requires forall i :: 0 <= i < |groups| ==> groups[i].Parsed?
    ensures Compact(OneUser(groups)) == OneUser(groups)
  {
    NonEmptyParsed(OneUser(groups).users);
    NonEmptyParsed(groups);
    NonEmptyParsed(OneUser(groups).shadows);
  }

  lemma SavedAgain(files: Files, db: Db, cfg: Config)
    requires Save(NO_FILES, db, cfg).ok
    ensures Save(files, db, cfg) == Save(NO_FILES, db, cfg)
  {
  }

  lemma {:induction false} NonEmptyParsed<T>(lines: seq<Line<T>>)
    requires forall i :: 0 <= i < |lines| ==> lines[i].Parsed?
    ensures NonEmpty(lines) == lines
  {
    if lines != [] {
      NonEmptyParsed(lines[1..]);
      assert lines == [lines[0]] + lines[1..];
    }
  }

  lemma UserStable(cfg: Config)
    ensures AllStable(PasswdCodec(cfg.allowBadName), [Parsed(USER)], cfg.allowBadLine)
  {
    LettersAreName("u", cfg.allowBadName);
    SmallUser(USER, cfg);
    OneStable(PasswdCodec(cfg.allowBadName), USER, cfg.allowBadLine);
  }

  lemma SmallUser(row: PasswdRow, cfg: Config)
    requires ValidPasswd(row, cfg.allowBadName) && row.password == "x" && !EndsWithCr(row.shell)
    ensures Stable(PasswdCodec(cfg.allowBadName), Parsed(row), cfg.allowBadLine)
  {
    PasswdLength(row, cfg.allowBadName);
    PasswdStable(row, cfg);
  }

  lemma NewShadowStable(cfg: Config)
    ensures AllStable(ShadowCodec(cfg.allowBadName), [Parsed(NewShadow("u", 0))], cfg.allowBadLine)
  {
    LettersAreName("u", cfg.allowBadName);
    SmallShadow("u", 0, cfg);
    OneStable(ShadowCodec(cfg.allowBadName), NewShadow("u", 0), cfg.allowBadLine);
  }

  lemma SmallShadow(name: Bytes, today: uint32, cfg: Config)
    requires IsName(name, cfg.allowBadName)
    ensures Stable(ShadowCodec(cfg.allowBadName), Parsed(NewShadow(name, today)), cfg.allowBadLine)
  {
    NewShadowLength(name, today, cfg.allowBadName);
    ShadowStable(NewShadow(name, today), cfg);
  }

  lemma OneStable<T>(c: Codec<T>, row: T, allowBadLine: bool)
    requires Stable(c, Parsed(row), allowBadLine)
    ensures AllStable(c, [Parsed(row)], allowBadLine)
  {
  }

  lemma SmallGroup(row: GroupRow, cfg: Config)
    requires ValidGroup(row, cfg.allowBadName) && row.password == "x" && |Join(row.userNames, ',')| <= 1000
    ensures Stable(GroupCodec(cfg.allowBadName), Parsed(row), cfg.allowBadLine)
  {
    GroupStable(row, cfg);
    GroupLength(row, cfg.allowBadName);
  }

  lemma IndexOfTwo<T, K>(a: T, b: T, key: T -> K)
    ensures IndexBy([Parsed(a), Parsed(b)], key) == map[key(a) := 0][key(b) := 1]
  {
    var two: seq<Line<T>>, one: seq<Line<T>> := [Parsed(a), Parsed(b)], [Parsed(a)];
    assert two[..1] == one && one[..0] == [];
  }

  // ------------------------------------------------------- a bad name of a group

  const A: GroupRow := GroupRow("a", "x", 5, [])
  const B: GroupRow := GroupRow("b", "x", 6, [])
  const TWO: seq<Line<GroupRow>> := [Parsed(A), Parsed(B)]

  /** The primary group is to be renamed to a name that cannot be written. */
  const BAD: UserReq := UserReq("u", [], None, GroupReq(Some(5), ":"), [GroupReq(None, "b")], "/bash", "/u")

  lemma BadPrimary()
    ensures var t := LoadedTable(TWO);
            && EnsureGroup(t, BAD.group, ALLOWED) == Ok(GroupStep(WithUpdatedGroup(t, 0, A.(name := ":")), 0, Modified))
            && TableOk(WithUpdatedGroup(t, 0, A.(name := ":")))
            && "b" in WithUpdatedGroup(t, 0, A.(name := ":")).byName
            && WithUpdatedGroup(t, 0, A.(name := ":")).byName["b"] == 1
  {
    IndexOfTwo(A, B, GroupName);
    IndexOfTwo(A, B, GroupId);
    EnsureGroupKeeps(LoadedTable(TWO), BAD.group, ALLOWED);
  }

  lemma BadGroups()
    ensures AllGroups(OneUser(TWO), BAD, ALLOWED).Ok?
    ensures WantedAt(OneUser(TWO), BAD, ALLOWED) == [0, 1]
    ensures AllGroups(OneUser(TWO), BAD, ALLOWED).value.table.lines == [Parsed(A.(name := ":")), Parsed(B)]
  {
    var t := WithUpdatedGroup(LoadedTable(TWO), 0, A.(name := ":"));
    BadPrimary();
    FoundByName(t, BAD.groups[0], 1);
    assert WantedAt(OneUser(TWO), BAD, ALLOWED) == [0] + [1];
  }

  lemma FoundByName(t: GroupTable, req: GroupReq, at: nat)
    requires TableOk(t) && req.gid == None && req.name in t.byName && t.byName[req.name] == at && req.name != []
    ensures EnsureGroups(t, [req], ALLOWED) == GroupsStep(t, Ok([at]))
  {
    LastEnsured(t, [req], ALLOWED);
    var one := [req];
    var none: seq<nat> := [];
    assert one[..0] == [] && EnsureGroups(t, [], ALLOWED) == GroupsStep(t, Ok(none)) && none + [at] == [at];
  }

  lemma BadEnsured(today: uint32)
    ensures EnsureDb(OneUser(TWO), BAD, ALLOWED, today).Ok?
    ensures EnsureDb(OneUser(TWO), BAD, ALLOWED, today).value.outcome == Modified
  {
    AllGroupsAllowed(OneUser(TWO), BAD);
    OneUserFound(TWO, BAD);
    EnsurePanics(OneUser(TWO), BAD, ALLOWED, today);
  }

  /** The user is there, with its shadow row. */
  lemma OneUserFound(groups: seq<Line<GroupRow>>, req: UserReq)
    requires req.name == "u"
    ensures LookupUser(OneUser(groups).users, req) == Some(0) && FindUser(OneUser(groups).users, req) == Some(USER)
    ensures FindLast(OneUser(groups).shadows, ShadowName, USER.name) == Some(NewShadow("u", 0))
  {
    IndexOfOne(USER, UserName);
    FoundInOne(USER, UserName);
    ShadowFound("u", 0);
  }

  lemma ShadowFound(name: Bytes, today: uint32)
    ensures FindLast([Parsed(NewShadow(name, today))], ShadowName, name) == Some(NewShadow(name, today))
  {
    FoundInOne(NewShadow(name, today), ShadowName);
  }

  lemma FoundInOne<T, K(!new)>(a: T, key: T -> K)
    ensures forall k :: key(a) == k ==> FindLast([Parsed(a)], key, k) == Some(a)
  {
    var one: seq<Line<T>> := [Parsed(a)];
    assert one[1..] == [];
  }

  lemma IndexOfOne<T, K>(a: T, key: T -> K)
    ensures IndexBy([Parsed(a)], key) == map[key(a) := 0]
  {
    var one: seq<Line<T>> := [Parsed(a)];
    assert one[..0] == [];
  }

  lemma TwoSaved(cfg: Config) returns (files: Files)
    ensures Load(files, cfg) == Some(OneUser(TWO))
  {
    LettersAreName("a", cfg.allowBadName);
    LettersAreName("b", cfg.allowBadName);
    SmallGroup(A, cfg);
    SmallGroup(B, cfg);
    files := OneUserSaved(TWO, cfg);
  }

  lemma BadColumns(allowBadName: bool)
    ensures UserOrDefaults(BAD) == BAD && UserColumnsHold(BAD, allowBadName)
  {
    LettersAreName("u", allowBadName);
  }

  /** MAIN: such a requirement, which has all its defaults, changes a valid user, and leaves an empty group file
      behind. */
  lemma BadGroupNameCutsFile(cfg: Config, today: uint32) returns (files: Files)
    ensures UserOrDefaults(BAD) == BAD && UserColumnsHold(BAD, cfg.allowBadName)
    ensures Load(files, cfg) == Some(OneUser(TWO))
    ensures var run := EnsureFiles(files, cfg, BAD, ALLOWED, today);
            run.result == Err(CannotSave) && run.files.group == []
  {
    files := TwoSaved(cfg);
    BadColumns(cfg.allowBadName);
    BadEnsured(today);
    BadGroups();
    BadNames(today, cfg.allowBadName);
    EnsureIsWritten(files, OneUser(TWO), cfg, BAD, ALLOWED, today);
    CutAtFirst(files, OneUser(TWO), cfg, BAD, ALLOWED, EnsureDb(OneUser(TWO), BAD, ALLOWED, today).value,
               EnsureFiles(files, cfg, BAD, ALLOWED, today));
  }

  lemma CutAtFirst(files: Files, db: Db, cfg: Config, req: UserReq, opts: Opts, step: EnsureStep, run: Run<Outcome>)
    requires AllGroups(db, req, opts).Ok? && WrittenOrCut(files, db, cfg, req, opts, step, run)
    requires UserColumnsHold(req, cfg.allowBadName) && !GroupNamesHold(db, req, opts, cfg.allowBadName)
    requires step.db.groups != [] && !RowNameHolds(step.db.groups, 0, cfg.allowBadName)
    ensures run.result == Err(CannotSave) && run.files.group == []
  {
    assert FirstBad(GroupCodec(cfg.allowBadName), step.db.groups) == 0;
    assert step.db.groups[..0] == [];
  }

  lemma BadNames(today: uint32, allowBadName: bool)
    requires EnsureDb(OneUser(TWO), BAD, ALLOWED, today).Ok?
    requires EnsureDb(OneUser(TWO), BAD, ALLOWED, today).value.outcome == Modified
    ensures AllGroups(OneUser(TWO), BAD, ALLOWED).Ok? && !GroupNamesHold(OneUser(TWO), BAD, ALLOWED, allowBadName)
    ensures var groups := EnsureDb(OneUser(TWO), BAD, ALLOWED, today).value.db.groups;
            |groups| == 2 && !RowNameHolds(groups, 0, allowBadName)
  {
    BadGroups();
    SameNames(OneUser(TWO), BAD, ALLOWED, today);
    assert IsLast([0, 1], 0) && AskedNames(BAD)[0] == ":";
    assert !IsName(":", allowBadName) by {
      var name: Bytes := ":";
      assert name[0] == ':' && IsBadNameChar(name, 0) && !IsDigit(name[0]) && !IsLetterLike(name, 0);
    }
  }

  // -------------------------------------------------- a group that is wanted twice

  const LISTED: GroupRow := GroupRow("b", "x", 6, ["u"])
  const LISTING: seq<Line<GroupRow>> := [Parsed(A), Parsed(LISTED)]

  /** All is as it should be, but that the same group is asked for twice. */
  const DOUBLE: UserReq := UserReq("u", [], None, GroupReq(None, "a"), [GroupReq(None, "b"), GroupReq(None, "b")],
                                   "/sh", "/u")

  lemma DoubleGroups()
    ensures AllGroups(OneUser(LISTING), DOUBLE, ALLOWED) == Ok(Wanted(5, LoadedTable(LISTING), [1, 1]))
  {
    var t := LoadedTable(LISTING);
    IndexOfTwo(A, LISTED, GroupName);
    IndexOfTwo(A, LISTED, GroupId);
    assert EnsureGroup(t, DOUBLE.group, ALLOWED) == Ok(GroupStep(t, 0, Unchanged));
    var once := DOUBLE.groups[..1];
    assert once == [GroupReq(None, "b")];
    FoundByName(t, GroupReq(None, "b"), 1);
    LastEnsured(t, DOUBLE.groups, ALLOWED);
    assert EnsureGroup(t, GroupReq(None, "b"), ALLOWED) == Ok(GroupStep(t, 1, Unchanged));
    var one: seq<nat> := [1];
    assert one + one == [1, 1];
    assert EnsureGroups(t, DOUBLE.groups, ALLOWED) == GroupsStep(t, Ok([1, 1]));
  }

  lemma DoubleUnfulfilled()
    ensures !Fulfilled(OneUser(LISTING), DOUBLE)
  {
    OneUserFound(LISTING, DOUBLE);
    MemberRowsAre(LISTING, "u");
    var c := Counts(LISTING, "u");
    assert c == [0, 1] && Sum(c[1..]) == 1 && Sum(c) == 1;
  }

  lemma DoubleRegrouped()
    ensures RegroupedGroups(LISTING, [1, 1], "u", "u") == LISTING
  {
    var after := RegroupedGroups(LISTING, [1, 1], "u", "u");
    assert A.(userNames := []) == A && LISTED.(userNames := ["u"]) == LISTED;
    assert after[0] == LISTING[0] && after[1] == LISTING[1];
  }

  lemma DoubleModified()
    ensures ModifiedDb(OneUser(LISTING), 0, DOUBLE, 5, LISTING, [1, 1]) == Ok(OneUser(LISTING))
  {
    var db := OneUser(LISTING);
    DoubleRegrouped();
    IndexOfOne(NewShadow("u", 0), ShadowName);
    assert UpdatedUser(USER, DOUBLE, 5) == USER;
    assert db.users[0 := Parsed(USER)] == db.users && db.shadows[0 := db.shadows[0]] == db.shadows;
  }

  lemma DoubleEnsured(today: uint32)
    ensures EnsureDb(OneUser(LISTING), DOUBLE, ALLOWED, today) == Ok(EnsureStep(OneUser(LISTING), Modified))
  {
    DoubleUnfulfilled();
    DoubleGroups();
    OneUserFound(LISTING, DOUBLE);
    DoubleModified();
  }

  lemma ListingSaved(cfg: Config) returns (files: Files)
    ensures Load(files, cfg) == Some(OneUser(LISTING)) && Save(files, OneUser(LISTING), cfg) == Saved(files, true)
  {
    LettersAreName("u", cfg.allowBadName);
    LettersAreName("a", cfg.allowBadName);
    LettersAreName("b", cfg.allowBadName);
    SmallGroup(A, cfg);
    SmallGroup(LISTED, cfg);
    files := OneUserSaved(LISTING, cfg);
  }

  /** MAIN: `Ensure` reports a change and writes the same files again, every time. */
  lemma DoubleNeverSettles(cfg: Config, today: uint32) returns (files: Files)
    ensures UserOrDefaults(DOUBLE) == DOUBLE && Load(files, cfg) == Some(OneUser(LISTING))
    ensures EnsureFiles(files, cfg, DOUBLE, ALLOWED, today) == Run(files, Ok(Modified))
  {
    files := ListingSaved(cfg);
    DoubleEnsured(today);
    ChangedIsSaved(files, OneUser(LISTING), cfg, DOUBLE, ALLOWED, today);
  }

  // ------------------------------------------------------------- a line of 64 KiB

  lemma {:induction false} JoinLetters(n: nat)
    ensures |Join(Times<Bytes>("u", n), ',')| == if n == 0 then 0 else 2 * n - 1
  {
    if n > 1 {
      JoinLetters(n - 1);
      assert Times<Bytes>("u", n)[1..] == Times<Bytes>("u", n - 1);
    }
  }

  lemma {:induction false} JoinKeepsLine(columns: seq<Bytes>)
    requires forall i :: 0 <= i < |columns| ==> '\n' !in columns[i]
    ensures '\n' !in Join(columns, ':')
  {
    if |columns| > 1 {
      JoinKeepsLine(columns[1..]);
    }
  }

  lemma GroupTextIsPlain(row: GroupRow, cfg: Config)
    requires ValidGroup(row, cfg.allowBadName) && row.password == "x"
    ensures '\n' !in Text(GroupCodec(cfg.allowBadName), Parsed(row))
  {
    NamesArePlain(row.name, cfg.allowBadName);
    DigitsArePlain(FormatUint(row.gid));
    JoinedNamesArePlain(row.userNames, cfg.allowBadName);
    JoinKeepsLine(EncodeGroup(row, cfg.allowBadName).value);
  }

  function Crowd(n: nat): GroupRow { GroupRow("b", "x", 6, Times("u", n)) }

  /** MAIN: a group with enough members is valid and written, and the reload after that finds no groups at all. */
  lemma CrowdCutsFile(n: nat, after: seq<Line<GroupRow>>, cfg: Config)
    requires n > 32768 && EncodeFile(GroupCodec(cfg.allowBadName), after).ok
    ensures var c := GroupCodec(cfg.allowBadName);
            && EncodeFile(c, [Parsed(Crowd(n))] + after).ok
            && DecodeFile(c, EncodeFile(c, [Parsed(Crowd(n))] + after).bytes, cfg.allowBadLine) == Some([])
  {
    var c, line := GroupCodec(cfg.allowBadName), Parsed(Crowd(n));
    GroupLawful(cfg.allowBadName);
    CrowdIsLong(n, cfg);
    assert ([line] + after)[1..] == after;
    assert [] + [line] + after == [line] + after;
    LongLineCutsFile(c, [], line, after, cfg.allowBadLine);
  }

  lemma CrowdIsLong(n: nat, cfg: Config)
    requires n > 32768
    ensures TooLong(GroupCodec(cfg.allowBadName), Parsed(Crowd(n)))
  {
    LettersAreName("u", cfg.allowBadName);
    LettersAreName("b", cfg.allowBadName);
    assert Crowd(n).userNames == Times<Bytes>("u", n);
    assert ValidGroup(Crowd(n), cfg.allowBadName);
    JoinLetters(n);
    GroupLength(Crowd(n), cfg.allowBadName);
    GroupTextIsPlain(Crowd(n), cfg);
  }
}
