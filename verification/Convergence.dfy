/** Whether what `Ensure` has written comes back, and whether a second `Ensure` finds nothing to do. */
module Convergence {
  import opened Bytes
  import opened ColonCodec
  import opened UnixRows
  import opened UserDb
  import opened UserDbLaws

  // --------------------------------------------------- when a row is stable

  lemma NamesArePlain(name: Bytes, allowBadName: bool)
    requires IsName(name, allowBadName)
    ensures Plain(name) && '\r' !in name && 0 < |name| <= 32
  {
    forall i | 0 <= i < |name| ensures name[i] !in [':', '\n', '\r'] {
      if allowBadName {
        assert !IsBadNameChar(name, i);
        assert ':' in BAD_CHARACTERS;
      } else {
        assert IsDigit(name[i]) || IsLetterLike(name, i);
      }
    }
  }

  lemma {:induction false} JoinedNamesArePlain(names: seq<Bytes>, allowBadName: bool)
    requires forall i :: 0 <= i < |names| ==> IsName(names[i], allowBadName)
    ensures Plain(Join(names, ',')) && '\r' !in Join(names, ',')
  {
    if names != [] {
      NamesArePlain(names[0], allowBadName);
      if |names| > 1 {
        JoinedNamesArePlain(names[1..], allowBadName);
      }
    }
  }

  /** A joined line ends in a carriage return exactly when its last column does. */
  lemma CrIsInLast(columns: seq<Bytes>)
    requires |columns| > 1
    ensures EndsWithCr(Join(columns, ':')) <==> EndsWithCr(columns[|columns| - 1])
  {
    JoinLast(columns, ':');
    var j, last := Join(columns, ':'), columns[|columns| - 1];
    assert last != [] ==> j[|j| - 1] == last[|last| - 1];
  }

  /** A passwd row is stable exactly when it is valid, its password holds no separator, its shell does not end in a
      carriage return and its line is not too long. */
  lemma PasswdStable(row: PasswdRow, cfg: Config)
    ensures Stable(PasswdCodec(cfg.allowBadName), Parsed(row), cfg.allowBadLine) <==>
            && ValidPasswd(row, cfg.allowBadName) && Plain(row.password) && !EndsWithCr(row.shell)
            && |Join(EncodePasswd(row, cfg.allowBadName).value, ':')| < MAX_TOKEN
  {
    if ValidPasswd(row, cfg.allowBadName) {
      var columns := EncodePasswd(row, cfg.allowBadName).value;
      CrIsInLast(columns);
      NamesArePlain(row.name, cfg.allowBadName);
      DigitsArePlain(FormatUint(row.uid));
      DigitsArePlain(FormatUint(row.gid));
      assert columns[1] == row.password;
    }
  }

  lemma GroupStable(row: GroupRow, cfg: Config)
    ensures Stable(GroupCodec(cfg.allowBadName), Parsed(row), cfg.allowBadLine) <==>
            && ValidGroup(row, cfg.allowBadName) && Plain(row.password)
            && |Join(EncodeGroup(row, cfg.allowBadName).value, ':')| < MAX_TOKEN
  {
    if ValidGroup(row, cfg.allowBadName) {
      var columns := EncodeGroup(row, cfg.allowBadName).value;
      CrIsInLast(columns);
      NamesArePlain(row.name, cfg.allowBadName);
      DigitsArePlain(FormatUint(row.gid));
      JoinedNamesArePlain(row.userNames, cfg.allowBadName);
      assert columns[1] == row.password;
    }
  }

  lemma ShadowStable(row: ShadowRow, cfg: Config)
    ensures Stable(ShadowCodec(cfg.allowBadName), Parsed(row), cfg.allowBadLine) <==>
            && ValidShadow(row, cfg.allowBadName) && Plain(row.password)
            && |Join(EncodeShadow(row, cfg.allowBadName).value, ':')| < MAX_TOKEN
  {
    if ValidShadow(row, cfg.allowBadName) {
      var columns := EncodeShadow(row, cfg.allowBadName).value;
      CrIsInLast(columns);
      NamesArePlain(row.name, cfg.allowBadName);
      ShadowNumbers(row);
      assert columns[1] == row.password;
    }
  }

  // ------------------------------------------------- when the result is stable

  /** No printed line, line end included, is longer than what the scanner returns. */
  ghost predicate LinesFit<T>(c: Codec<T>, lines: seq<Line<T>>) {
    forall i :: 0 <= i < |lines| && EncodeLine(c, lines[i]).Some? ==> |EncodeLine(c, lines[i]).value| <= MAX_TOKEN
  }

  ghost predicate DbFits(db: Db, cfg: Config) {
    && LinesFit(PasswdCodec(cfg.allowBadName), db.users)
    && LinesFit(GroupCodec(cfg.allowBadName), db.groups)
    && LinesFit(ShadowCodec(cfg.allowBadName), db.shadows)
  }

  ghost predicate AllPrintable<T>(c: Codec<T>, lines: seq<Line<T>>) {
    forall i :: 0 <= i < |lines| ==> EncodeLine(c, lines[i]).Some?
  }

  lemma {:induction false} WrittenIsPrintable<T>(c: Codec<T>, lines: seq<Line<T>>)
    requires EncodeFile(c, lines).ok
    ensures AllPrintable(c, lines)
  {
    if lines != [] {
      WrittenIsPrintable(c, lines[1..]);
      assert forall i :: 0 < i < |lines| ==> lines[i] == lines[1..][i - 1];
    }
  }

  lemma StableFits<T>(c: Codec<T>, lines: seq<Line<T>>, allowBadLine: bool)
    requires AllStable(c, lines, allowBadLine)
    ensures LinesFit(c, lines)
  {
  }

  /** Lines of which one is new or changed. */
  ghost predicate OneChanged<T>(before: seq<Line<T>>, after: seq<Line<T>>, at: nat) {
    && at < |after| && |before| <= |after|
    && (forall i :: 0 <= i < |after| && i != at ==> i < |before| && after[i] == before[i])
  }

  lemma OneChangedStable<T>(c: Codec<T>, before: seq<Line<T>>, after: seq<Line<T>>, at: nat, allowBadLine: bool)
    requires OneChanged(before, after, at) && AllStable(c, before, allowBadLine) && after[at] != Raw([])
    ensures AllStable(c, after, allowBadLine) <==> Stable(c, after[at], allowBadLine)
    ensures AllPrintable(c, after) ==> (LinesFit(c, after) <==> |EncodeLine(c, after[at]).value| <= MAX_TOKEN)
  {
    StableFits(c, before, allowBadLine);
  }

  lemma UsersStable(before: seq<Line<PasswdRow>>, after: seq<Line<PasswdRow>>, at: nat, cfg: Config)
    requires AllStable(PasswdCodec(cfg.allowBadName), before, cfg.allowBadLine) && OneChanged(before, after, at)
    requires AllPrintable(PasswdCodec(cfg.allowBadName), after) && IsRow(after, at) && Plain(after[at].entry.password)
    ensures var c := PasswdCodec(cfg.allowBadName);
            AllStable(c, after, cfg.allowBadLine) <==> !EndsWithCr(after[at].entry.shell) && LinesFit(c, after)
  {
    PasswdStable(after[at].entry, cfg);
    OneChangedStable(PasswdCodec(cfg.allowBadName), before, after, at, cfg.allowBadLine);
  }

  lemma ShadowsStable(before: seq<Line<ShadowRow>>, after: seq<Line<ShadowRow>>, at: nat, cfg: Config)
    requires AllStable(ShadowCodec(cfg.allowBadName), before, cfg.allowBadLine) && OneChanged(before, after, at)
    requires AllPrintable(ShadowCodec(cfg.allowBadName), after) && IsRow(after, at) && Plain(after[at].entry.password)
    ensures AllStable(ShadowCodec(cfg.allowBadName), after, cfg.allowBadLine)
       <==> LinesFit(ShadowCodec(cfg.allowBadName), after)
  {
    ShadowStable(after[at].entry, cfg);
    OneChangedStable(ShadowCodec(cfg.allowBadName), before, after, at, cfg.allowBadLine);
  }

  lemma PasswdPassword(row: PasswdRow, cfg: Config)
    requires Stable(PasswdCodec(cfg.allowBadName), Parsed(row), cfg.allowBadLine)
    ensures Plain(row.password)
  {
    PasswdStable(row, cfg);
  }

  lemma GroupsStable(before: seq<Line<GroupRow>>, after: seq<Line<GroupRow>>, a: Bytes, b: Bytes, wanted: seq<nat>,
                     cfg: Config)
    requires AllStable(GroupCodec(cfg.allowBadName), before, cfg.allowBadLine) && RestKept(before, after, a, b, wanted)
    requires AllPrintable(GroupCodec(cfg.allowBadName), after)
    ensures AllStable(GroupCodec(cfg.allowBadName), after, cfg.allowBadLine)
       <==> LinesFit(GroupCodec(cfg.allowBadName), after)
  {
    var c := GroupCodec(cfg.allowBadName);
    forall i | 0 <= i < |after| && after[i] != Raw([])
      ensures Stable(c, after[i], cfg.allowBadLine) <==> |EncodeLine(c, after[i]).value| <= MAX_TOKEN
    {
      if after[i].Parsed? {
        if i < |before| {
          assert before[i] != Raw([]) && Stable(c, before[i], cfg.allowBadLine);
          GroupStable(before[i].entry, cfg);
        }
        GroupStable(after[i].entry, cfg);
      } else {
        assert after[i] == before[i];
      }
    }
  }

  lemma SavedIsPrintable(files: Files, db: Db, cfg: Config)
    requires Save(files, db, cfg).ok
    ensures AllPrintable(PasswdCodec(cfg.allowBadName), db.users)
    ensures AllPrintable(GroupCodec(cfg.allowBadName), db.groups)
    ensures AllPrintable(ShadowCodec(cfg.allowBadName), db.shadows)
  {
    WrittenIsPrintable(PasswdCodec(cfg.allowBadName), db.users);
    WrittenIsPrintable(GroupCodec(cfg.allowBadName), db.groups);
    WrittenIsPrintable(ShadowCodec(cfg.allowBadName), db.shadows);
  }

  lemma ShadowsKeptStable(before: seq<Line<ShadowRow>>, after: seq<Line<ShadowRow>>, former: Bytes, name: Bytes,
                          cfg: Config)
    requires AllStable(ShadowCodec(cfg.allowBadName), before, cfg.allowBadLine)
    requires ShadowsKept(before, after, former, name)
    requires AllPrintable(ShadowCodec(cfg.allowBadName), after)
    ensures AllStable(ShadowCodec(cfg.allowBadName), after, cfg.allowBadLine)
       <==> LinesFit(ShadowCodec(cfg.allowBadName), after)
  {
    if after == before {
      StableFits(ShadowCodec(cfg.allowBadName), before, cfg.allowBadLine);
    } else {
      var s: nat :| IsRow(before, s) && before[s].entry.name == former
          && after == before[s := Parsed(before[s].entry.(name := name))];
      ShadowStable(before[s].entry, cfg);
      ShadowsStable(before, after, s, cfg);
    }
  }

  /** Where the user of a requirement is after `Ensure`. */
  function UserAt(db: Db, req: UserReq): nat {
    match LookupUser(db.users, req) case None => |db.users| case Some(at) => at
  }

  lemma ChangedUser(db: Db, req: UserReq, opts: Opts, today: uint32)
    requires EnsureDb(db, req, opts, today).Ok? && EnsureDb(db, req, opts, today).value.outcome != Unchanged
    ensures var after, at := EnsureDb(db, req, opts, today).value.db, UserAt(db, req);
            && OneChanged(db.users, after.users, at) && IsRow(after.users, at)
            && after.users[at].entry.shell == req.shell
            && after.users[at].entry.password
               == (if at < |db.users| && db.users[at].Parsed? then db.users[at].entry.password else "x")
  {
    EnsureKeepsRest(db, req, opts, today);
  }

  lemma ChangedShadows(db: Db, req: UserReq, opts: Opts, today: uint32, cfg: Config)
    requires EnsureDb(db, req, opts, today).Ok?
    requires AllStable(ShadowCodec(cfg.allowBadName), db.shadows, cfg.allowBadLine)
    requires AllPrintable(ShadowCodec(cfg.allowBadName), EnsureDb(db, req, opts, today).value.db.shadows)
    ensures var c, after := ShadowCodec(cfg.allowBadName), EnsureDb(db, req, opts, today).value.db.shadows;
            AllStable(c, after, cfg.allowBadLine) <==> LinesFit(c, after)
  {
    var after := EnsureDb(db, req, opts, today).value.db;
    if EnsureDb(db, req, opts, today).value.outcome == Unchanged {
      StableFits(ShadowCodec(cfg.allowBadName), db.shadows, cfg.allowBadLine);
    } else {
      EnsureKeepsRest(db, req, opts, today);
      match LookupUser(db.users, req)
      case None =>
        ShadowsStable(db.shadows, after.shadows, |db.shadows|, cfg);
      case Some(at) =>
        ShadowsKeptStable(db.shadows, after.shadows, db.users[at].entry.name, after.users[at].entry.name, cfg);
    }
  }

  lemma ChangedGroups(db: Db, req: UserReq, opts: Opts, today: uint32, cfg: Config)
    requires EnsureDb(db, req, opts, today).Ok?
    requires AllStable(GroupCodec(cfg.allowBadName), db.groups, cfg.allowBadLine)
    requires AllPrintable(GroupCodec(cfg.allowBadName), EnsureDb(db, req, opts, today).value.db.groups)
    ensures var c, after := GroupCodec(cfg.allowBadName), EnsureDb(db, req, opts, today).value.db.groups;
            AllStable(c, after, cfg.allowBadLine) <==> LinesFit(c, after)
  {
    if EnsureDb(db, req, opts, today).value.outcome == Unchanged {
      StableFits(GroupCodec(cfg.allowBadName), db.groups, cfg.allowBadLine);
    } else {
      EnsureKeepsRest(db, req, opts, today);
      var after, wanted := EnsureDb(db, req, opts, today).value.db, WantedAt(db, req, opts);
      var name := after.users[UserAt(db, req)].entry.name;
      var former := match LookupUser(db.users, req) case None => name case Some(at) => db.users[at].entry.name;
      GroupsStable(db.groups, after.groups, former, name, wanted, cfg);
    }
  }

  /** Stable files do not fulfil a requirement with a shell that ends in a carriage return. */
  lemma StableShell(db: Db, cfg: Config, req: UserReq)
    requires AllStable(PasswdCodec(cfg.allowBadName), db.users, cfg.allowBadLine) && EndsWithCr(req.shell)
    ensures !Fulfilled(db, req)
  {
    FoundUserIsIn(db.users, req);
    if FindUser(db.users, req).Some? {
      var i :| 0 <= i < |db.users| && db.users[i] == Parsed(FindUser(db.users, req).value);
      assert Stable(PasswdCodec(cfg.allowBadName), db.users[i], cfg.allowBadLine);
      PasswdStable(db.users[i].entry, cfg);
    }
  }

  /** MAIN: what `Ensure` makes of files that were stable, and can be written, is stable exactly if the shell asked for
      does not end in a carriage return and no line gets longer than what the scanner returns. */
  lemma ChangedIsStable(files: Files, db: Db, cfg: Config, req: UserReq, opts: Opts, today: uint32)
    requires EnsureDb(db, req, opts, today).Ok?
    requires StableDb(db, cfg) && Save(files, EnsureDb(db, req, opts, today).value.db, cfg).ok
    ensures var after := EnsureDb(db, req, opts, today).value.db;
            StableDb(after, cfg) <==> !EndsWithCr(req.shell) && DbFits(after, cfg)
  {
    var after, at := EnsureDb(db, req, opts, today).value.db, UserAt(db, req);
    SavedIsPrintable(files, after, cfg);
    if EnsureDb(db, req, opts, today).value.outcome == Unchanged {
      if EndsWithCr(req.shell) {
        StableShell(db, cfg, req);
      }
      StableFits(PasswdCodec(cfg.allowBadName), db.users, cfg.allowBadLine);
    } else {
      ChangedUser(db, req, opts, today);
      if at < |db.users| && db.users[at].Parsed? {
        PasswdPassword(db.users[at].entry, cfg);
      }
      UsersStable(db.users, after.users, at, cfg);
    }
    ChangedShadows(db, req, opts, today, cfg);
    ChangedGroups(db, req, opts, today, cfg);
  }

  // ------------------------------------------------------- what a reload loses

  lemma StableLineRead<T(!new)>(c: Codec<T>, line: Line<T>, rest: Bytes, more: seq<Line<T>>, allowBadLine: bool)
    requires Lawful(c) && EncodeLine(c, line).Some? && (line == Raw([]) || Stable(c, line, allowBadLine))
    requires DecodeFile(c, rest, allowBadLine) == Some(more)
    ensures DecodeFile(c, EncodeLine(c, line).value + rest, allowBadLine)
            == Some(if line == Raw([]) then more else [line] + more)
  {
    if line == Raw([]) {
      assert EncodeLine(c, line).value + rest == rest;
    } else {
      FirstLine(c, line, rest, allowBadLine);
    }
  }

  lemma LongLineRead<T(!new)>(c: Codec<T>, line: Line<T>, rest: Bytes, allowBadLine: bool)
    requires EncodeLine(c, line).Some? && '\n' !in Text(c, line) && |Text(c, line)| >= MAX_TOKEN
    ensures DecodeFile(c, EncodeLine(c, line).value + rest, allowBadLine) == Some([])
  {
    ScanFirst(Text(c, line), rest);
    assert EncodeLine(c, line).value + rest == Text(c, line) + ['\n'] + rest;
  }

  ghost predicate TooLong<T>(c: Codec<T>, line: Line<T>) {
    EncodeLine(c, line).Some? && '\n' !in Text(c, line) && |Text(c, line)| >= MAX_TOKEN
  }

  /** MAIN: a line that is too long hides itself and everything after it from the next reload. */
  lemma {:induction false} LongLineCutsFile<T(!new)>(c: Codec<T>, front: seq<Line<T>>, long: Line<T>,
                                                     after: seq<Line<T>>, allowBadLine: bool)
    requires Lawful(c) && AllStable(c, front, allowBadLine) && TooLong(c, long)
    requires EncodeFile(c, front + [long] + after).ok
    ensures DecodeFile(c, EncodeFile(c, front + [long] + after).bytes, allowBadLine) == Some(NonEmpty(front))
  {
    var lines := front + [long] + after;
    if front == [] {
      assert lines[1..] == after;
      LongLineRead(c, long, EncodeFile(c, after).bytes, allowBadLine);
    } else {
      assert lines[0] == front[0] && lines[1..] == front[1..] + [long] + after;
      AllStableCons(c, front, allowBadLine);
      LongLineCutsFile(c, front[1..], long, after, allowBadLine);
      StableLineRead(c, front[0], EncodeFile(c, lines[1..]).bytes, NonEmpty(front[1..]), allowBadLine);
      assert [] + NonEmpty(front[1..]) == NonEmpty(front[1..]);
    }
  }

  /** Whatever a line whose shell ends in a carriage return is read as, it is not read with this shell. */
  lemma CutLine(row: PasswdRow, cfg: Config)
    requires ValidPasswd(row, cfg.allowBadName) && Plain(row.password) && EndsWithCr(row.shell)
    ensures var c := PasswdCodec(cfg.allowBadName);
            var text := Join(EncodePasswd(row, cfg.allowBadName).value, ':');
            && '\n' !in text && EndsWithCr(text)
            && match DecodeLine(c, DropCr(text), cfg.allowBadLine) case Some(Parsed(r)) => r.shell != row.shell
               case _ => true
  {
    var columns := EncodePasswd(row, cfg.allowBadName).value;
    var raw := DropCr(Join(columns, ':'));
    NamesArePlain(row.name, cfg.allowBadName);
    DigitsArePlain(FormatUint(row.uid));
    DigitsArePlain(FormatUint(row.gid));
    assert forall i :: 0 <= i < 7 ==> Plain(columns[i]);
    NewlineInJoin(columns);
    CrIsInLast(columns);
    var cols := SplitN(raw, ':', 8);
    if |cols| == 7 && cols[6] == row.shell {
      SplitFree(raw, ':', 7);
      JoinOfSplit(raw, ':', 8);
      CutChangesJoin(cols, columns);
    }
  }

  /** Lines that are stable, or have a shell that is cut. */
  ghost predicate ShellIsCut(line: Line<PasswdRow>, shell: Bytes, cfg: Config) {
    || line == Raw([])
    || Stable(PasswdCodec(cfg.allowBadName), line, cfg.allowBadLine)
    || (line.Parsed? && ValidPasswd(line.entry, cfg.allowBadName) && Plain(line.entry.password)
        && line.entry.shell == shell)
  }

  ghost predicate HasNot(lines: Option<seq<Line<PasswdRow>>>, shell: Bytes) {
    lines.Some? ==> forall row: PasswdRow :: Parsed(row) in lines.value ==> row.shell != shell
  }

  lemma FirstHasNot(line: Line<PasswdRow>, rest: Bytes, shell: Bytes, cfg: Config)
    requires ShellIsCut(line, shell, cfg) && EndsWithCr(shell) && EncodeLine(PasswdCodec(cfg.allowBadName), line).Some?
    requires HasNot(DecodeFile(PasswdCodec(cfg.allowBadName), rest, cfg.allowBadLine), shell)
    ensures var c := PasswdCodec(cfg.allowBadName);
            HasNot(DecodeFile(c, EncodeLine(c, line).value + rest, cfg.allowBadLine), shell)
  {
    var c := PasswdCodec(cfg.allowBadName);
    if line == Raw([]) {
      assert EncodeLine(c, line).value + rest == rest;
    } else if Stable(c, line, cfg.allowBadLine) {
      PasswdLawful(cfg.allowBadName);
      FirstLine(c, line, rest, cfg.allowBadLine);
      if line.Parsed? {
        PasswdStable(line.entry, cfg);
      }
    } else {
      CutLine(line.entry, cfg);
      ScanFirst(Text(c, line), rest);
      assert EncodeLine(c, line).value + rest == Text(c, line) + ['\n'] + rest;
    }
  }

  lemma {:induction false} CutShellIsLost(users: seq<Line<PasswdRow>>, shell: Bytes, cfg: Config)
    requires EndsWithCr(shell) && AllPrintable(PasswdCodec(cfg.allowBadName), users)
    requires forall i :: 0 <= i < |users| ==> ShellIsCut(users[i], shell, cfg)
    ensures var c := PasswdCodec(cfg.allowBadName);
            HasNot(DecodeFile(c, EncodeFile(c, users).bytes, cfg.allowBadLine), shell)
  {
    if users != [] {
      assert forall i :: 0 <= i < |users| - 1 ==> users[1..][i] == users[i + 1];
      CutShellIsLost(users[1..], shell, cfg);
      FirstHasNot(users[0], EncodeFile(PasswdCodec(cfg.allowBadName), users[1..]).bytes, shell, cfg);
    }
  }

  lemma {:induction false} FindLastIsIn<T, K>(lines: seq<Line<T>>, key: T -> K, k: K)
    ensures FindLast(lines, key, k).Some? ==> Parsed(FindLast(lines, key, k).value) in lines
  {
    if lines != [] {
      FindLastIsIn(lines[1..], key, k);
    }
  }

  lemma FoundUserIsIn(users: seq<Line<PasswdRow>>, req: UserReq)
    ensures FindUser(users, req).Some? ==> Parsed(FindUser(users, req).value) in users
  {
    FindLastIsIn(users, UserName, req.name);
    if req.uid.Some? {
      FindLastIsIn(users, UserId, req.uid.value);
    }
  }

  /** A reload of the users after such a change finds nobody with the shell. */
  lemma ShellNotReloaded(db: Db, cfg: Config, req: UserReq, opts: Opts, today: uint32)
    requires StableDb(db, cfg) && EndsWithCr(req.shell)
    requires EnsureDb(db, req, opts, today).Ok?
    requires AllPrintable(PasswdCodec(cfg.allowBadName), EnsureDb(db, req, opts, today).value.db.users)
    ensures var c := PasswdCodec(cfg.allowBadName);
            HasNot(DecodeFile(c, EncodeFile(c, EnsureDb(db, req, opts, today).value.db.users).bytes, cfg.allowBadLine),
                   req.shell)
  {
    var users, at := EnsureDb(db, req, opts, today).value.db.users, UserAt(db, req);
    StableShell(db, cfg, req);
    ChangedUser(db, req, opts, today);
    if at < |db.users| && db.users[at].Parsed? {
      PasswdPassword(db.users[at].entry, cfg);
    }
    forall i | 0 <= i < |users| ensures ShellIsCut(users[i], req.shell, cfg) {
      assert EncodeLine(PasswdCodec(cfg.allowBadName), users[i]).Some?;
      assert i != at ==> i < |db.users| && users[i] == db.users[i];
    }
    CutShellIsLost(users, req.shell, cfg);
  }

  lemma LoadedUsers(files: Files, db: Db, cfg: Config)
    requires Load(files, cfg) == Some(db)
    ensures DecodeFile(PasswdCodec(cfg.allowBadName), files.passwd, cfg.allowBadLine) == Some(db.users)
  {
  }

  lemma NotFulfilledWithout(db: Db, req: UserReq)
    requires HasNot(Some(db.users), req.shell)
    ensures !Fulfilled(db, req)
  {
    FoundUserIsIn(db.users, req);
  }

  /** MAIN: after a successful `Ensure` with a shell that ends in a carriage return, no later one finds the requirement
      fulfilled, whatever else is in the files. */
  lemma CutShellNeverSettles(files: Files, db: Db, cfg: Config, req: UserReq, opts: Opts, today: uint32, opts': Opts,
                             today': uint32)
    requires Load(files, cfg) == Some(db) && StableDb(db, cfg) && EndsWithCr(req.shell)
    requires EnsureDb(db, req, opts, today).Ok?
    requires EnsureFiles(files, cfg, req, opts, today).result.Ok?
    ensures var first := EnsureFiles(files, cfg, req, opts, today);
            EnsureFiles(first.files, cfg, req, opts', today').result != Ok(Unchanged)
  {
    var after := EnsureDb(db, req, opts, today).value.db;
    var first := EnsureFiles(files, cfg, req, opts, today).files;
    StableShell(db, cfg, req);
    ChangedIsSaved(files, db, cfg, req, opts, today);
    SavedIsPrintable(files, after, cfg);
    ShellNotReloaded(db, cfg, req, opts, today);
    assert first.passwd == EncodeFile(PasswdCodec(cfg.allowBadName), after.users).bytes;
    if Load(first, cfg).Some? {
      var again := Load(first, cfg).value;
      LoadedUsers(first, again, cfg);
      NotFulfilledWithout(again, req);
      SecondResult(first, again, cfg, req, opts', today');
    }
  }

  lemma SecondResult(files: Files, db: Db, cfg: Config, req: UserReq, opts: Opts, today: uint32)
    requires Load(files, cfg) == Some(db)
    ensures EnsureFiles(files, cfg, req, opts, today).result == Ok(Unchanged) <==> Fulfilled(db, req)
  {
    if !Fulfilled(db, req) && EnsureDb(db, req, opts, today).Ok? {
      assert EnsureDb(db, req, opts, today).value.outcome != Unchanged;
    }
  }

  /** The primary group stands once all groups are ensured, and the memberships settle. */
  ghost predicate WillSettle(db: Db, req: UserReq, all: Wanted) {
    PrimaryStands(all, req.group) && MembershipsSettle(db, req, all)
  }

  lemma ChangedTwice(files: Files, db: Db, cfg: Config, req: UserReq, opts: Opts, today: uint32, opts': Opts,
                     today': uint32)
    requires req.uid.Some? ==> req.name != []
    requires Load(files, cfg) == Some(db) && StableDb(db, cfg) && EnsureDb(db, req, opts, today).Ok?
    requires EnsureFiles(files, cfg, req, opts, today).result.Ok?
    ensures var step, first := EnsureDb(db, req, opts, today).value, EnsureFiles(files, cfg, req, opts, today);
            var second := EnsureFiles(first.files, cfg, req, opts', today');
            step.outcome != Unchanged ==>
              && AllGroups(db, req, opts).Ok?
              && (Load(first.files, cfg) == Some(Compact(step.db)) <==> !EndsWithCr(req.shell) && DbFits(step.db, cfg))
              && (EndsWithCr(req.shell) ==> second.result != Ok(Unchanged))
              && (DbFits(step.db, cfg) ==>
                    (second == Run(first.files, Ok(Unchanged))
                     <==> (!EndsWithCr(req.shell) && req.name != []
                           && WillSettle(db, req, AllGroups(db, req, opts).value))))
  {
    var step := EnsureDb(db, req, opts, today).value;
    if step.outcome != Unchanged {
      ChangedIsSaved(files, db, cfg, req, opts, today);
      SavedIsLoaded(files, step.db, cfg);
      ChangedIsStable(files, db, cfg, req, opts, today);
      EnsureSettles(db, req, opts, today);
      if EndsWithCr(req.shell) {
        CutShellNeverSettles(files, db, cfg, req, opts, today, opts', today');
      } else if DbFits(step.db, cfg) {
        FulfilledNonEmpty(step.db, req);
        UnchangedIsFulfilled(Save(files, step.db, cfg).files, Compact(step.db), cfg, req, opts', today');
      }
    }
  }

  /** MAIN: after a successful `Ensure` on stable files, from whatever requirement: if it changed nothing, neither
      does a second one. Otherwise the files hold all that was made of them exactly if the shell does not end in a
      carriage return and all lines fit; a shell that does is never settled; and if the lines fit, the second one
      finds nothing to do, and writes nothing, exactly when the shell does not, the requirement names the user, its
      primary group stands once all groups are ensured and the memberships settle. */
  lemma EnsureTwice(files: Files, db: Db, cfg: Config, req: UserReq, opts: Opts, today: uint32, opts': Opts,
                    today': uint32)
    requires req.uid.Some? ==> req.name != []
    requires Load(files, cfg) == Some(db) && StableDb(db, cfg) && EnsureDb(db, req, opts, today).Ok?
    requires EnsureFiles(files, cfg, req, opts, today).result.Ok?
    ensures var step, first := EnsureDb(db, req, opts, today).value, EnsureFiles(files, cfg, req, opts, today);
            var second := EnsureFiles(first.files, cfg, req, opts', today');
            if step.outcome == Unchanged then second == Run(files, Ok(Unchanged))
            else
              && AllGroups(db, req, opts).Ok?
              && (Load(first.files, cfg) == Some(Compact(step.db)) <==> !EndsWithCr(req.shell) && DbFits(step.db, cfg))
              && (EndsWithCr(req.shell) ==> second.result != Ok(Unchanged))
              && (DbFits(step.db, cfg) ==>
                    (second == Run(first.files, Ok(Unchanged))
                     <==> (!EndsWithCr(req.shell) && req.name != []
                           && WillSettle(db, req, AllGroups(db, req, opts).value))))
  {
    var step := EnsureDb(db, req, opts, today).value;
    if step.outcome == Unchanged {
      UnchangedIsFulfilled(files, db, cfg, req, opts, today);
      UnchangedIsFulfilled(files, db, cfg, req, opts', today');
    } else {
      ChangedTwice(files, db, cfg, req, opts, today, opts', today');
    }
  }

  // --------------------------------------------------- lengths, from the inputs

  /** Room for what `Ensure` can add to a line: a row's own columns, and the user as often as groups are asked for. */
  function Slack(req: UserReq): nat { 1024 + 33 * |req.groups| }

  ghost predicate Roomy<T>(c: Codec<T>, lines: seq<Line<T>>, slack: nat) {
    forall i :: 0 <= i < |lines| && EncodeLine(c, lines[i]).Some? ==>
      |EncodeLine(c, lines[i]).value| + slack <= MAX_TOKEN
  }

  ghost predicate DbRoomy(db: Db, cfg: Config, slack: nat) {
    && slack <= MAX_TOKEN
    && Roomy(PasswdCodec(cfg.allowBadName), db.users, slack)
    && Roomy(GroupCodec(cfg.allowBadName), db.groups, slack)
    && Roomy(ShadowCodec(cfg.allowBadName), db.shadows, slack)
  }

  lemma PasswdLength(row: PasswdRow, allowBadName: bool)
    requires ValidPasswd(row, allowBadName)
    ensures |row.password| <= |Join(EncodePasswd(row, allowBadName).value, ':')| <= |row.password| + 900
  {
    var columns := EncodePasswd(row, allowBadName).value;
    NamesArePlain(row.name, allowBadName);
    UintLength(row.uid);
    UintLength(row.gid);
    JoinSeven(columns);
  }

  /** The length of the columns from one on, and of all separators between them. */
  lemma {:induction false} JoinFrom(c: seq<Bytes>, i: nat)
    requires i < |c|
    ensures |Join(c[i..], ':')| == LengthFrom(c, i)
    decreases |c| - i
  {
    if i + 1 < |c| {
      JoinFrom(c, i + 1);
      assert c[i..][1..] == c[i + 1..];
    }
  }

  function LengthFrom(c: seq<Bytes>, i: nat): nat
    requires i < |c|
    decreases |c| - i
  {
    |c[i]| + if i + 1 < |c| then 1 + LengthFrom(c, i + 1) else 0
  }

  lemma JoinSeven(c: seq<Bytes>)
    requires |c| == 7
    ensures |Join(c, ':')| == |c[0]| + |c[1]| + |c[2]| + |c[3]| + |c[4]| + |c[5]| + |c[6]| + 6
  {
    JoinFrom(c, 0);
    assert c[0..] == c;
    assert LengthFrom(c, 5) == |c[5]| + |c[6]| + 1;
    assert LengthFrom(c, 3) == |c[3]| + |c[4]| + |c[5]| + |c[6]| + 3;
    assert LengthFrom(c, 1) == |c[1]| + |c[2]| + |c[3]| + |c[4]| + |c[5]| + |c[6]| + 5;
  }

  lemma JoinFour(c: seq<Bytes>)
    requires |c| == 4
    ensures |Join(c, ':')| == |c[0]| + |c[1]| + |c[2]| + |c[3]| + 3
  {
    JoinFrom(c, 0);
    assert c[0..] == c;
    assert LengthFrom(c, 2) == |c[2]| + |c[3]| + 1;
  }

  lemma GroupLength(row: GroupRow, allowBadName: bool)
    requires ValidGroup(row, allowBadName)
    ensures var members := |row.password| + |Join(row.userNames, ',')|;
            members <= |Join(EncodeGroup(row, allowBadName).value, ':')| <= members + 50
  {
    NamesArePlain(row.name, allowBadName);
    UintLength(row.gid);
    JoinFour(EncodeGroup(row, allowBadName).value);
  }

  lemma {:induction false} JoinSnocLength(names: seq<Bytes>, name: Bytes)
    ensures |Join(names + [name], ',')| <= |Join(names, ',')| + |name| + 1
  {
    if names == [] {
      assert names + [name] == [name];
    } else {
      JoinSnocLength(names[1..], name);
      assert (names + [name])[1..] == names[1..] + [name];
      assert |names| == 1 ==> (names[1..] + [name]) == [name];
    }
  }

  lemma {:induction false} TimesLength(names: seq<Bytes>, name: Bytes, n: nat)
    ensures |Join(names + Times(name, n), ',')| <= |Join(names, ',')| + n * (|name| + 1)
  {
    if n == 0 {
      assert names + Times(name, 0) == names;
    } else {
      var before, k := names + Times(name, n - 1), |name| + 1;
      TimesLength(names, name, n - 1);
      JoinSnocLength(before, name);
      assert names + Times(name, n) == before + [name];
      assert n * k == (n - 1) * k + k;
    }
  }

  lemma {:induction false} WithoutLength(names: seq<Bytes>, name: Bytes)
    ensures |Join(Without(names, name), ',')| <= |Join(names, ',')|
  {
    if names != [] {
      WithoutLength(names[1..], name);
      var rest := Without(names[1..], name);
      if names[0] == name {
        assert Without(names, name) == rest;
      } else {
        assert Without(names, name) == [names[0]] + rest;
        assert ([names[0]] + rest)[1..] == rest;
        assert |names| == 1 ==> rest == [];
      }
    }
  }

  lemma {:induction false} OccursAtMost(refs: seq<nat>, at: nat)
    ensures Occurs(refs, at) <= |refs|
    decreases |refs|
  {
    if refs != [] {
      OccursAtMost(refs[..|refs| - 1], at);
    }
  }

  /** Regrouping adds at most one listing to a group, joining at most one for every group asked for. */
  lemma RegroupedLength(lines: seq<Line<GroupRow>>, refs: seq<nat>, former: Bytes, name: Bytes, at: nat)
    requires IsRow(lines, at)
    ensures |Join(RegroupedMembers(lines, refs, former, name, at), ',')| <= |Join(lines[at].entry.userNames, ',')|
            + |name| + 1
  {
    var names := lines[at].entry.userNames;
    var members := if former == name then names else Without(names, former);
    WithoutLength(names, former);
    WithoutLength(members, name);
    JoinSnocLength(members, name);
  }

  lemma JoinedLength(names: seq<Bytes>, refs: seq<nat>, name: Bytes, at: nat)
    requires |name| <= 32
    ensures |Join(names + Times(name, Occurs(refs, at)), ',')| <= |Join(names, ',')| + 33 * |refs|
  {
    TimesLength(names, name, Occurs(refs, at));
    OccursAtMost(refs, at);
    Bounded(Occurs(refs, at), |refs|, |name| + 1, 33);
  }

  lemma Bounded(n: nat, m: nat, k: nat, l: nat)
    requires n <= m && k <= l
    ensures n * k <= l * m
  {
    assert n * k <= n * l;
    assert n * l <= m * l;
  }

  /** As long as the members of a group can have got. */
  ghost predicate MembersFit(groups: seq<Line<GroupRow>>, row: GroupRow, i: nat, req: UserReq) {
    |Join(row.userNames, ',')| <= (if IsRow(groups, i) then |Join(groups[i].entry.userNames, ',')| else 0)
        + 33 * |req.groups| + 33
  }

  lemma NewMembersLength(db: Db, req: UserReq, opts: Opts, name: Bytes, i: nat)
    requires AllGroups(db, req, opts).Ok? && |name| <= 32
    requires var all := AllGroups(db, req, opts).value; IsRow(JoinedGroups(all.table.lines, all.refs, name), i)
    ensures var all := AllGroups(db, req, opts).value;
            MembersFit(db.groups, JoinedGroups(all.table.lines, all.refs, name)[i].entry, i, req)
  {
    var all := AllGroups(db, req, opts).value;
    AllGroupsDerive(db, req, opts);
    AllGroupsAreRows(db, req, opts);
    JoinedLength(all.table.lines[i].entry.userNames, all.refs, name, i);
  }

  lemma ExistingMembersLength(db: Db, req: UserReq, opts: Opts, former: Bytes, name: Bytes, i: nat)
    requires AllGroups(db, req, opts).Ok? && |name| <= 32
    requires var all := AllGroups(db, req, opts).value;
             IsRow(RegroupedGroups(all.table.lines, all.refs, former, name), i)
    ensures var all := AllGroups(db, req, opts).value;
            MembersFit(db.groups, RegroupedGroups(all.table.lines, all.refs, former, name)[i].entry, i, req)
  {
    var all := AllGroups(db, req, opts).value;
    AllGroupsDerive(db, req, opts);
    RegroupedLength(all.table.lines, all.refs, former, name, i);
  }

  lemma MembersLength(db: Db, req: UserReq, opts: Opts, today: uint32, i: nat)
    requires EnsureDb(db, req, opts, today).Ok?
    requires var after := EnsureDb(db, req, opts, today).value.db;
             IsRow(after.groups, i) && forall u: PasswdRow :: Parsed(u) in after.users ==> |u.name| <= 32
    ensures MembersFit(db.groups, EnsureDb(db, req, opts, today).value.db.groups[i].entry, i, req)
  {
    if EnsureDb(db, req, opts, today).value.outcome != Unchanged {
      ChangedUser(db, req, opts, today);
      var user := EnsureDb(db, req, opts, today).value.db.users[UserAt(db, req)];
      assert user in EnsureDb(db, req, opts, today).value.db.users && user == Parsed(user.entry);
      match LookupUser(db.users, req)
      case None => NewMembersLength(db, req, opts, user.entry.name, i);
      case Some(at) => ExistingMembersLength(db, req, opts, db.users[at].entry.name, user.entry.name, i);
    }
  }

  lemma PrintedNames(users: seq<Line<PasswdRow>>, cfg: Config)
    requires AllPrintable(PasswdCodec(cfg.allowBadName), users)
    ensures forall u: PasswdRow :: Parsed(u) in users ==> |u.name| <= 32
  {
    forall u: PasswdRow | Parsed(u) in users ensures |u.name| <= 32 {
      var i :| 0 <= i < |users| && users[i] == Parsed(u);
      assert EncodeLine(PasswdCodec(cfg.allowBadName), users[i]).Some?;
    }
  }

  lemma GroupsFit(db: Db, req: UserReq, opts: Opts, today: uint32, cfg: Config)
    requires EnsureDb(db, req, opts, today).Ok?
    requires AllStable(GroupCodec(cfg.allowBadName), db.groups, cfg.allowBadLine) && DbRoomy(db, cfg, Slack(req))
    requires AllPrintable(PasswdCodec(cfg.allowBadName), EnsureDb(db, req, opts, today).value.db.users)
    requires AllPrintable(GroupCodec(cfg.allowBadName), EnsureDb(db, req, opts, today).value.db.groups)
    ensures LinesFit(GroupCodec(cfg.allowBadName), EnsureDb(db, req, opts, today).value.db.groups)
  {
    var c, after := GroupCodec(cfg.allowBadName), EnsureDb(db, req, opts, today).value.db;
    if EnsureDb(db, req, opts, today).value.outcome == Unchanged {
      StableFits(c, db.groups, cfg.allowBadLine);
    } else {
      PrintedNames(after.users, cfg);
      EnsureKeepsRest(db, req, opts, today);
      forall i | 0 <= i < |after.groups| ensures |EncodeLine(c, after.groups[i]).value| <= MAX_TOKEN {
        if after.groups[i].Parsed? {
          MembersLength(db, req, opts, today, i);
          GroupLength(after.groups[i].entry, cfg.allowBadName);
          if i < |db.groups| {
            assert Stable(c, db.groups[i], cfg.allowBadLine);
            GroupLength(db.groups[i].entry, cfg.allowBadName);
          }
        } else {
          assert after.groups[i] == db.groups[i];
        }
      }
    }
  }

  lemma UsersFit(db: Db, req: UserReq, opts: Opts, today: uint32, cfg: Config)
    requires EnsureDb(db, req, opts, today).Ok?
    requires AllStable(PasswdCodec(cfg.allowBadName), db.users, cfg.allowBadLine) && DbRoomy(db, cfg, Slack(req))
    requires AllPrintable(PasswdCodec(cfg.allowBadName), EnsureDb(db, req, opts, today).value.db.users)
    ensures LinesFit(PasswdCodec(cfg.allowBadName), EnsureDb(db, req, opts, today).value.db.users)
  {
    var c, after, at := PasswdCodec(cfg.allowBadName), EnsureDb(db, req, opts, today).value.db, UserAt(db, req);
    if EnsureDb(db, req, opts, today).value.outcome == Unchanged {
      StableFits(c, db.users, cfg.allowBadLine);
    } else {
      ChangedUser(db, req, opts, today);
      assert EncodeLine(c, after.users[at]).Some?;
      PasswdLength(after.users[at].entry, cfg.allowBadName);
      if at < |db.users| && db.users[at].Parsed? {
        assert Stable(c, db.users[at], cfg.allowBadLine);
        PasswdLength(db.users[at].entry, cfg.allowBadName);
      }
      OneChangedStable(c, db.users, after.users, at, cfg.allowBadLine);
    }
  }

  lemma RenamedLength(row: ShadowRow, name: Bytes, allowBadName: bool)
    requires ValidShadow(row, allowBadName) && ValidShadow(row.(name := name), allowBadName)
    ensures |Join(EncodeShadow(row.(name := name), allowBadName).value,
                  ':')| <= |Join(EncodeShadow(row, allowBadName).value, ':')| + 32
  {
    var c, d := EncodeShadow(row, allowBadName).value, EncodeShadow(row.(name := name), allowBadName).value;
    NamesArePlain(name, allowBadName);
    assert c[1..] == d[1..];
  }

  lemma NewShadowLength(name: Bytes, today: uint32, allowBadName: bool)
    requires ValidShadow(NewShadow(name, today), allowBadName)
    ensures |Join(EncodeShadow(NewShadow(name, today), allowBadName).value, ':')| <= 100
  {
    var c := EncodeShadow(NewShadow(name, today), allowBadName).value;
    NamesArePlain(name, allowBadName);
    UintLength(today);
    UintLength(0);
    UintLength(99999);
    UintLength(7);
    JoinFrom(c, 0);
    assert c[0..] == c;
    assert LengthFrom(c, 7) == 1;
    assert LengthFrom(c, 5) <= 13;
    assert LengthFrom(c, 3) <= 35;
    assert LengthFrom(c, 1) <= 48;
  }

  lemma ShadowsFit(db: Db, req: UserReq, opts: Opts, today: uint32, cfg: Config)
    requires EnsureDb(db, req, opts, today).Ok?
    requires AllStable(ShadowCodec(cfg.allowBadName), db.shadows, cfg.allowBadLine) && DbRoomy(db, cfg, Slack(req))
    requires AllPrintable(ShadowCodec(cfg.allowBadName), EnsureDb(db, req, opts, today).value.db.shadows)
    ensures LinesFit(ShadowCodec(cfg.allowBadName), EnsureDb(db, req, opts, today).value.db.shadows)
  {
    var c, after := ShadowCodec(cfg.allowBadName), EnsureDb(db, req, opts, today).value.db;
    if EnsureDb(db, req, opts, today).value.outcome == Unchanged {
      StableFits(c, db.shadows, cfg.allowBadLine);
    } else {
      EnsureKeepsRest(db, req, opts, today);
      StableFits(c, db.shadows, cfg.allowBadLine);
      match LookupUser(db.users, req)
      case None =>
        CreatedShadow(db, req, opts, today);
        var last := |db.shadows|;
        assert EncodeLine(c, after.shadows[last]).Some?;
        NewShadowLength(after.shadows[last].entry.name, today, cfg.allowBadName);
        OneChangedStable(c, db.shadows, after.shadows, last, cfg.allowBadLine);
      case Some(at) =>
        RenamedFits(db.shadows, after.shadows, db.users[at].entry.name, after.users[at].entry.name, cfg, Slack(req));
    }
  }

  lemma CreatedShadow(db: Db, req: UserReq, opts: Opts, today: uint32)
    requires EnsureDb(db, req, opts, today).Ok? && LookupUser(db.users, req) == None
    ensures var after := EnsureDb(db, req, opts, today).value.db;
            after != db ==> exists name :: after.shadows == db.shadows + [Parsed(NewShadow(name, today))]
  {
  }

  lemma RenamedFits(before: seq<Line<ShadowRow>>, after: seq<Line<ShadowRow>>, former: Bytes, name: Bytes, cfg: Config,
                    slack: nat)
    requires AllStable(ShadowCodec(cfg.allowBadName), before, cfg.allowBadLine)
    requires ShadowsKept(before, after, former, name)
    requires AllPrintable(ShadowCodec(cfg.allowBadName), after)
    requires Roomy(ShadowCodec(cfg.allowBadName), before, slack) && slack >= 32
    ensures LinesFit(ShadowCodec(cfg.allowBadName), after)
  {
    var c := ShadowCodec(cfg.allowBadName);
    StableFits(c, before, cfg.allowBadLine);
    if after != before {
      var s: nat :| IsRow(before, s) && before[s].entry.name == former
          && after == before[s := Parsed(before[s].entry.(name := name))];
      assert Stable(c, before[s], cfg.allowBadLine) && EncodeLine(c, after[s]).Some?;
      RenamedLength(before[s].entry, name, cfg.allowBadName);
      OneChangedStable(c, before, after, s, cfg.allowBadLine);
    }
  }

  /** MAIN: when the lines of stable files leave room for what `Ensure` can add to them, all lines fit afterwards. */
  lemma RoomyFits(files: Files, db: Db, cfg: Config, req: UserReq, opts: Opts, today: uint32)
    requires EnsureDb(db, req, opts, today).Ok?
    requires StableDb(db, cfg) && DbRoomy(db, cfg, Slack(req))
    requires Save(files, EnsureDb(db, req, opts, today).value.db, cfg).ok
    ensures DbFits(EnsureDb(db, req, opts, today).value.db, cfg)
  {
    SavedIsPrintable(files, EnsureDb(db, req, opts, today).value.db, cfg);
    UsersFit(db, req, opts, today, cfg);
    GroupsFit(db, req, opts, today, cfg);
    ShadowsFit(db, req, opts, today, cfg);
  }

  /** Groups asked for by different names; none of them lists an existing user twice, no group lists a new one. */
  predicate MembershipsAreClean(db: Db, req: UserReq, opts: Opts) {
    && NamedOnly(req.groups) && (forall i, j :: 0 <= i < j < |req.groups| ==> req.groups[i].name != req.groups[j].name)
    && if LookupUser(db.users, req).None? then MemberRows(db.groups, req.name) == []
       else forall i :: 0 <= i < |req.groups| ==>
         Listings(PrimaryTable(db, req, opts), req.groups[i].name, req.name) <= 1
  }

  /** A primary group is asked for, and for an existing user gids are distinct and the one asked for is free. */
  ghost predicate GroupsAreClean(db: Db, req: UserReq) {
    req.group != NO_GROUP && (LookupUser(db.users, req).Some? ==> GidsFit(db, req))
  }

  /** MAIN: on stable files with room in their lines, clean groups and clean memberships, after a successful `Ensure`
      for a user with a name and a shell that does not end in a carriage return, a second one finds nothing to do. */
  lemma EnsureConverges(files: Files, db: Db, cfg: Config, req: UserReq, opts: Opts, today: uint32, opts': Opts,
                        today': uint32)
    requires Load(files, cfg) == Some(db) && StableDb(db, cfg) && DbRoomy(db, cfg, Slack(req))
    requires req.name != [] && !EndsWithCr(req.shell) && EnsureFiles(files, cfg, req, opts, today).result.Ok?
    ensures var first := EnsureFiles(files, cfg, req, opts, today);
            GroupsAreClean(db, req) && MembershipsAreClean(db, req, opts) ==>
              EnsureFiles(first.files, cfg, req, opts', today') == Run(first.files, Ok(Unchanged))
  {
    EnsureTwice(files, db, cfg, req, opts, today, opts', today');
    if EnsureDb(db, req, opts, today).value.outcome != Unchanged && GroupsAreClean(db, req)
        && MembershipsAreClean(db, req, opts) {
      if LookupUser(db.users, req).Some? {
        DistinctGroupsAddUp(PrimaryTable(db, req, opts), req.groups, req.name);
      }
      ChangedIsSaved(files, db, cfg, req, opts, today);
      RoomyFits(files, db, cfg, req, opts, today);
      NamedPrimaryStands(db, req, opts);
      NamedMembershipsSettle(db, req, opts);
    }
  }
}
