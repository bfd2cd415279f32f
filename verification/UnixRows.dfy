/** The rows of passwd(5), group(5) and shadow(5): validation, and reading and printing their columns. */
module UnixRows {
  import opened Bytes
  import opened ColonCodec

  datatype PasswdRow = PasswdRow(name: Bytes, password: Bytes, uid: uint32, gid: uint32, geocs: Bytes,
                                 homeDir: Bytes, shell: Bytes)

  datatype GroupRow = GroupRow(name: Bytes, password: Bytes, gid: uint32, userNames: seq<Bytes>)

  /** The source's pairs of a number and a flag telling whether there is one are options here. */
  datatype ShadowRow = ShadowRow(name: Bytes, password: Bytes, lastChanged: uint32, minimumAge: uint32,
                                 maximumAge: uint32,
                                 warnAge: Option<uint32>, inactiveAge: Option<uint32>, expireAt: Option<uint32>)

  // --------------------------------------------------------------- validation

  const BAD_CHARACTERS: Bytes := "\\/:*?\"><|,"

  predicate IsDots(s: Bytes) { s == "." || s == ".." }

  predicate IsBadNameChar(s: Bytes, i: nat)
    requires i < |s|
  {
    (i == 0 && s[i] in ['~', '-', '+']) || s[i] < '!' || s[i] in BAD_CHARACTERS
  }

  /** Names accepted when bad names are allowed. */
  predicate IsBadUnixUser(s: Bytes) {
    0 < |s| <= 32 && !IsDots(s) && forall i :: 0 <= i < |s| ==> !IsBadNameChar(s, i)
  }

  predicate IsLetterLike(s: Bytes, i: nat)
    requires i < |s|
  {
    'a' <= s[i] <= 'z' || 'A' <= s[i] <= 'Z' || s[i] == '_' || s[i] == '.'
    || (i > 0 && s[i] == '-') || (i == |s| - 1 && s[i] == '$')
  }

  /** Names accepted otherwise: of legal characters, and not of digits only. */
  predicate IsUnixName(s: Bytes) {
    && 0 < |s| <= 32 && !IsDots(s)
    && (forall i :: 0 <= i < |s| ==> IsDigit(s[i]) || IsLetterLike(s, i))
    && !AllDigits(s)
  }

  predicate IsName(s: Bytes, allowBadName: bool) {
    if allowBadName then IsBadUnixUser(s) else IsUnixName(s)
  }

  predicate IsGeocs(s: Bytes) { |s| <= 255 && '\U{0000}' !in s && ':' !in s && '\n' !in s }

  predicate IsPath(s: Bytes) { s != [] && IsGeocs(s) }

  /** `validateBadUnixUser`. */
  method ValidateBadUnixUser(s: Bytes) returns (ok: bool)
    ensures ok == IsBadUnixUser(s)
  {
    if |s| == 0 || |s| > 32 { return false; }
    if |s| == 1 && s[0] == '.' { return false; }
    if |s| == 2 && s[0] == '.' && s[1] == '.' { return false; }
    for i := 0 to |s|
      invariant forall k :: 0 <= k < i ==> !IsBadNameChar(s, k)
    {
      var c := s[i];
      if (i == 0 && c in ['~', '-', '+']) || c < '!' || c in BAD_CHARACTERS {
        assert IsBadNameChar(s, i);
        return false;
      }
    }
    return true;
  }

  /** `validateUnixName`. */
  method ValidateUnixName(s: Bytes) returns (ok: bool)
    ensures ok == IsUnixName(s)
  {
    if |s| == 0 || |s| > 32 { return false; }
    if |s| == 1 && s[0] == '.' { return false; }
    if |s| == 2 && s[0] == '.' && s[1] == '.' { return false; }
    var nonNumeric := false;
    for i := 0 to |s|
      invariant forall k :: 0 <= k < i ==> IsDigit(s[k]) || IsLetterLike(s, k)
      invariant nonNumeric <==> exists k :: 0 <= k < i && !IsDigit(s[k])
    {
      var c := s[i];
      if 'a' <= c <= 'z' || 'A' <= c <= 'Z' {
        nonNumeric := true;
      } else if '0' <= c <= '9' {
      } else if c == '_' || c == '.' || (i > 0 && c == '-') || (i == |s| - 1 && c == '$') {
        nonNumeric := true;
      } else {
        return false;
      }
    }
    return nonNumeric;
  }

  // ------------------------------------------------------------------ columns

  /** `parseUint32Column` for a column that may be empty. */
  function OptionalColumn(column: Bytes): Option<Option<uint32>> {
    if column == [] then Some(None)
    else match ParseUint32(column) case Some(n) => Some(Some(n)) case None => None
  }

  function PrintOptional(n: Option<uint32>): Bytes {
    match n case Some(v) => FormatUint(v) case None => []
  }

  predicate ValidPasswd(row: PasswdRow, allowBadName: bool) {
    IsName(row.name, allowBadName) && IsGeocs(row.geocs) && IsPath(row.homeDir) && IsPath(row.shell)
  }

  function DecodePasswd(line: seq<Bytes>, allowBadName: bool): Option<PasswdRow> {
    if |line| != 7 then None
    else match (ParseUint32(line[2]), ParseUint32(line[3]))
         case (Some(uid), Some(gid)) =>
           var row := PasswdRow(line[0], line[1], uid, gid, line[4], line[5], line[6]);
           if ValidPasswd(row, allowBadName) then Some(row) else None
         case _ => None
  }

  function EncodePasswd(row: PasswdRow, allowBadName: bool): Option<seq<Bytes>> {
    if !ValidPasswd(row, allowBadName) then None
    else Some([row.name, row.password, FormatUint(row.uid), FormatUint(row.gid), row.geocs, row.homeDir, row.shell])
  }

  predicate ValidGroup(row: GroupRow, allowBadName: bool) {
    IsName(row.name, allowBadName) && forall i :: 0 <= i < |row.userNames| ==> IsName(row.userNames[i], allowBadName)
  }

  function DecodeGroup(line: seq<Bytes>, allowBadName: bool): Option<GroupRow> {
    if |line| != 4 then None
    else match ParseUint32(line[2])
         case Some(gid) =>
           var row := GroupRow(line[0], line[1], gid, if line[3] == [] then [] else Split(line[3], ','));
           if ValidGroup(row, allowBadName) then Some(row) else None
         case None => None
  }

  function EncodeGroup(row: GroupRow, allowBadName: bool): Option<seq<Bytes>> {
    if !ValidGroup(row, allowBadName) then None
    else Some([row.name, row.password, FormatUint(row.gid), Join(row.userNames, ',')])
  }

  predicate ValidShadow(row: ShadowRow, allowBadName: bool) { IsName(row.name, allowBadName) && row.password != [] }

  function DecodeShadow(line: seq<Bytes>, allowBadName: bool): Option<ShadowRow> {
    if |line| != 9 || line[8] != [] then None
    else match (ParseUint32(line[2]), OptionalColumn(line[3]), ParseUint32(line[4]))
         case (Some(lastChanged), Some(minimumAge), Some(maximumAge)) =>
           (match (OptionalColumn(line[5]), OptionalColumn(line[6]), OptionalColumn(line[7]))
            case (Some(warnAge), Some(inactiveAge), Some(expireAt)) =>
              var row := ShadowRow(line[0], line[1], lastChanged,
                                   if minimumAge.Some? then minimumAge.value
                                   else 0, maximumAge, warnAge, inactiveAge, expireAt);
              if ValidShadow(row, allowBadName) then Some(row) else None
            case _ => None)
         case _ => None
  }

  function EncodeShadow(row: ShadowRow, allowBadName: bool): Option<seq<Bytes>> {
    if !ValidShadow(row, allowBadName) then None
    else Some([row.name, row.password, FormatUint(row.lastChanged), FormatUint(row.minimumAge),
               FormatUint(row.maximumAge),
               PrintOptional(row.warnAge), PrintOptional(row.inactiveAge), PrintOptional(row.expireAt), []])
  }

  function PasswdCodec(allowBadName: bool): Codec<PasswdRow> {
    Codec(7, line => DecodePasswd(line, allowBadName), row => EncodePasswd(row, allowBadName))
  }

  function GroupCodec(allowBadName: bool): Codec<GroupRow> {
    Codec(4, line => DecodeGroup(line, allowBadName), row => EncodeGroup(row, allowBadName))
  }

  function ShadowCodec(allowBadName: bool): Codec<ShadowRow> {
    Codec(9, line => DecodeShadow(line, allowBadName), row => EncodeShadow(row, allowBadName))
  }

  // ------------------------------------------------ the three formats are lawful

  lemma DigitsArePlain(s: Bytes)
    requires AllDigits(s)
    ensures Plain(s)
  {
  }

  lemma NamesHaveNoComma(s: Bytes, allowBadName: bool)
    requires IsName(s, allowBadName)
    ensures ',' !in s && s != []
  {
    if allowBadName {
      assert forall i :: 0 <= i < |s| ==> !IsBadNameChar(s, i) && s[i] != ',';
    }
  }

  lemma JoinLength(names: seq<Bytes>)
    requires forall i :: 0 <= i < |names| ==> names[i] != []
    ensures |names| <= |Join(names, ',')|
  {
  }

  /** The member list is printed with commas and read back, and read and printed back. */
  lemma MembersRoundTrip(names: seq<Bytes>, allowBadName: bool)
    requires forall i :: 0 <= i < |names| ==> IsName(names[i], allowBadName)
    ensures names == [] <==> Join(names, ',') == []
    ensures names != [] ==> Split(Join(names, ','), ',') == names
  {
    forall i | 0 <= i < |names| ensures ',' !in names[i] && names[i] != [] {
      NamesHaveNoComma(names[i], allowBadName);
    }
    JoinLength(names);
    if names != [] {
      SplitOfJoin(names, ',', |Join(names, ',')| + 1);
    }
  }

  lemma PasswdRoundTrip(row: PasswdRow, allowBadName: bool)
    requires ValidPasswd(row, allowBadName)
    ensures DecodePasswd(EncodePasswd(row, allowBadName).value, allowBadName) == Some(row)
  {
    assert ParseUint32(FormatUint(row.uid)) == Some(row.uid) && ParseUint32(FormatUint(row.gid)) == Some(row.gid);
  }

  lemma PasswdReadsBack(cols: seq<Bytes>, allowBadName: bool)
    requires |cols| == 7 && DecodePasswd(cols, allowBadName).Some?
    ensures ReadsBack(PasswdCodec(allowBadName), cols)
  {
    var row := DecodePasswd(cols, allowBadName).value;
    DigitsArePlain(FormatUint(row.uid));
    DigitsArePlain(FormatUint(row.gid));
  }

  lemma PasswdLawful(allowBadName: bool)
    ensures Lawful(PasswdCodec(allowBadName))
  {
    var c := PasswdCodec(allowBadName);
    forall row ensures PrintsBack(c, row) {
      if c.encode(row).Some? {
        PasswdRoundTrip(row, allowBadName);
      }
    }
    forall cols ensures ReadsBack(c, cols) {
      if |cols| == c.columns && c.decode(cols).Some? {
        PasswdReadsBack(cols, allowBadName);
      }
    }
  }

  lemma GroupRoundTrip(row: GroupRow, allowBadName: bool)
    requires ValidGroup(row, allowBadName)
    ensures DecodeGroup(EncodeGroup(row, allowBadName).value, allowBadName) == Some(row)
  {
    MembersRoundTrip(row.userNames, allowBadName);
    assert ParseUint32(FormatUint(row.gid)) == Some(row.gid);
  }

  lemma GroupReadsBack(cols: seq<Bytes>, allowBadName: bool)
    requires |cols| == 4 && DecodeGroup(cols, allowBadName).Some?
    ensures ReadsBack(GroupCodec(allowBadName), cols)
  {
    JoinOfSplit(cols[3], ',', |cols[3]| + 1);
    DigitsArePlain(FormatUint(DecodeGroup(cols, allowBadName).value.gid));
  }

  lemma GroupLawful(allowBadName: bool)
    ensures Lawful(GroupCodec(allowBadName))
  {
    var c := GroupCodec(allowBadName);
    forall row ensures PrintsBack(c, row) {
      if c.encode(row).Some? {
        GroupRoundTrip(row, allowBadName);
      }
    }
    forall cols ensures ReadsBack(c, cols) {
      if |cols| == c.columns && c.decode(cols).Some? {
        GroupReadsBack(cols, allowBadName);
      }
    }
  }

  lemma OptionalRoundTrip(n: Option<uint32>)
    ensures OptionalColumn(PrintOptional(n)) == Some(n) && Plain(PrintOptional(n))
  {
    if n.Some? {
      assert ParseUint32(FormatUint(n.value)) == Some(n.value);
      DigitsArePlain(FormatUint(n.value));
    }
  }

  lemma NumberRoundTrip(n: uint32)
    ensures ParseUint32(FormatUint(n)) == Some(n) && OptionalColumn(FormatUint(n)) == Some(Some(n))
    ensures Plain(FormatUint(n))
  {
    OptionalRoundTrip(Some(n));
  }

  lemma ShadowNumbers(row: ShadowRow)
    ensures forall n: uint32 | n in {row.lastChanged, row.minimumAge, row.maximumAge} ::
              ParseUint32(FormatUint(n)) == Some(n) && OptionalColumn(FormatUint(n)) == Some(Some(n))
                  && Plain(FormatUint(n))
    ensures forall n | n in {row.warnAge, row.inactiveAge, row.expireAt} ::
              OptionalColumn(PrintOptional(n)) == Some(n) && Plain(PrintOptional(n))
  {
    NumberRoundTrip(row.lastChanged);
    NumberRoundTrip(row.minimumAge);
    NumberRoundTrip(row.maximumAge);
    OptionalRoundTrip(row.warnAge);
    OptionalRoundTrip(row.inactiveAge);
    OptionalRoundTrip(row.expireAt);
  }

  lemma ShadowRoundTrip(row: ShadowRow, allowBadName: bool)
    requires ValidShadow(row, allowBadName)
    ensures DecodeShadow(EncodeShadow(row, allowBadName).value, allowBadName) == Some(row)
  {
    ShadowNumbers(row);
  }

  lemma ShadowReadsBack(cols: seq<Bytes>, allowBadName: bool)
    requires |cols| == 9 && DecodeShadow(cols, allowBadName).Some?
    ensures ReadsBack(ShadowCodec(allowBadName), cols)
  {
    ShadowNumbers(DecodeShadow(cols, allowBadName).value);
  }

  lemma ShadowLawful(allowBadName: bool)
    ensures Lawful(ShadowCodec(allowBadName))
  {
    var c := ShadowCodec(allowBadName);
    forall row ensures PrintsBack(c, row) {
      if c.encode(row).Some? {
        ShadowRoundTrip(row, allowBadName);
      }
    }
    forall cols ensures ReadsBack(c, cols) {
      if |cols| == c.columns && c.decode(cols).Some? {
        ShadowReadsBack(cols, allowBadName);
      }
    }
  }
}
