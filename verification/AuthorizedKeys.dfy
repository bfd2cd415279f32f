/** The lines of an authorized_keys file (sshd(8), section AUTHORIZED_KEYS FILE FORMAT): printing and parsing their
    options. */
module AuthorizedKeys {
  import opened Bytes

  datatype OptionType =
    | Empty | AgentForwarding | NoAgentForwarding | CertAuthority | Command | Environment | ExpiryTime | From
    | PermitListen | PermitOpen | Principals | PortForwarding | NoPortForwarding | Pty | NoPty | NoTouchRequired
    | VerifyRequired | Restrict | Tunnel | UserRc | NoUserRc | X11Forwarding | NoX11Forwarding

  function Name(t: OptionType): Bytes {
    match t
    case Empty => ""
    case AgentForwarding => "agent-forwarding"
    case NoAgentForwarding => "no-agent-forwarding"
    case CertAuthority => "cert-authority"
    case Command => "command"
    case Environment => "environment"
    case ExpiryTime => "expiry-time"
    case From => "from"
    case PermitListen => "permitlisten"
    case PermitOpen => "permitopen"
    case Principals => "principals"
    case PortForwarding => "port-forwarding"
    case NoPortForwarding => "no-port-forwarding"
    case Pty => "pty"
    case NoPty => "no-pty"
    case NoTouchRequired => "no-touch-required"
    case VerifyRequired => "verify-required"
    case Restrict => "restrict"
    case Tunnel => "tunnel"
    case UserRc => "user-rc"
    case NoUserRc => "no-user-rc"
    case X11Forwarding => "x11-forwarding"
    case NoX11Forwarding => "no-x11-forwarding"
  }

  const TYPES: seq<OptionType> := [
    Empty, AgentForwarding, NoAgentForwarding, CertAuthority, Command, Environment, ExpiryTime, From,
    PermitListen, PermitOpen, Principals, PortForwarding, NoPortForwarding, Pty, NoPty, NoTouchRequired,
    VerifyRequired, Restrict, Tunnel, UserRc, NoUserRc, X11Forwarding, NoX11Forwarding]

  function HasValue(t: OptionType): bool {
    t.Command? || t.Environment? || t.ExpiryTime? || t.From? || t.PermitListen? || t.PermitOpen? || t.Principals?
        || t.Tunnel?
  }

  lemma NamesDiffer(t: OptionType, u: OptionType)
    requires Name(t) == Name(u)
    ensures t == u
  {
    var a, b := Name(t), Name(u);
    assert |a| == |b|;
    assert |a| > 3 ==> a[1] == b[1] && a[3] == b[3];
  }

  lemma AllTypes(t: OptionType)
    ensures t in TYPES
  {
    var i := match t
      case Empty => 0 case AgentForwarding => 1 case NoAgentForwarding => 2 case CertAuthority => 3 case Command => 4
      case Environment => 5 case ExpiryTime => 6 case From => 7 case PermitListen => 8 case PermitOpen => 9
      case Principals => 10
      case PortForwarding => 11 case NoPortForwarding => 12 case Pty => 13 case NoPty => 14 case NoTouchRequired => 15
      case VerifyRequired => 16 case Restrict => 17 case Tunnel => 18 case UserRc => 19 case NoUserRc => 20
      case X11Forwarding => 21 case NoX11Forwarding => 22;
    assert TYPES[i] == t;
  }

  lemma AllNamesDiffer()
    ensures forall t, u :: Name(t) == Name(u) ==> t == u
  {
    forall t, u | Name(t) == Name(u) {
      NamesDiffer(t, u);
    }
  }

  /** The types by their names. */
  function TypesByName(): (m: map<Bytes, OptionType>)
    ensures forall t :: t in TYPES ==> Name(t) in m && m[Name(t)] == t
  {
    AllNamesDiffer();
    map t | t in TYPES :: Name(t) := t
  }

  /** Letters, digits and dashes: nothing that quotes, separates or assigns. */
  predicate PlainText(s: Bytes) { forall i :: 0 <= i < |s| ==> 'a' <= s[i] <= 'z' || s[i] == '-' || '0' <= s[i] <= '9' }

  lemma AgentNamesArePlain(t: OptionType)
    requires t.AgentForwarding? || t.NoAgentForwarding? || t.CertAuthority?
    ensures PlainText(Name(t))
  {
  }

  lemma PortNamesArePlain(t: OptionType)
    requires t.PortForwarding? || t.NoPortForwarding? || t.NoTouchRequired?
    ensures PlainText(Name(t))
  {
  }

  lemma X11NamesArePlain(t: OptionType)
    requires t.VerifyRequired? || t.X11Forwarding? || t.NoX11Forwarding?
    ensures PlainText(Name(t))
  {
  }

  lemma MiddleNamesArePlain(t: OptionType)
    requires t.Environment? || t.ExpiryTime? || t.PermitListen? || t.PermitOpen? || t.Principals?
    ensures PlainText(Name(t))
  {
  }

  lemma NamesArePlain(t: OptionType)
    ensures PlainText(Name(t))
  {
    match t
    case AgentForwarding => AgentNamesArePlain(t);
    case NoAgentForwarding => AgentNamesArePlain(t);
    case CertAuthority => AgentNamesArePlain(t);
    case PortForwarding => PortNamesArePlain(t);
    case NoPortForwarding => PortNamesArePlain(t);
    case NoTouchRequired => PortNamesArePlain(t);
    case VerifyRequired => X11NamesArePlain(t);
    case X11Forwarding => X11NamesArePlain(t);
    case NoX11Forwarding => X11NamesArePlain(t);
    case Environment => MiddleNamesArePlain(t);
    case ExpiryTime => MiddleNamesArePlain(t);
    case PermitListen => MiddleNamesArePlain(t);
    case PermitOpen => MiddleNamesArePlain(t);
    case Principals => MiddleNamesArePlain(t);
    case _ =>
  }

  // ------------------------------------------------------------------- quoting

  function HexDigit(n: nat): byte
    requires n < 16
  {
    if n < 10 then '0' + n as char else 'a' + (n - 10) as char
  }

  function HexValue(c: byte): Option<nat> {
    if '0' <= c <= '9' then Some((c - '0') as nat)
    else if 'a' <= c <= 'f' then Some((c - 'a') as nat + 10)
    else if 'A' <= c <= 'F' then Some((c - 'A') as nat + 10)
    else None
  }

  predicate IsAscii(s: Bytes) { forall i :: 0 <= i < |s| ==> s[i] < '\U{0080}' }

  /** The letter after the backslash for the characters that have one. */
  function Letter(c: byte): Option<byte> {
    if c == '\U{0007}' then Some('a') else if c == '\U{0008}' then Some('b') else if c == '\U{000C}' then Some('f')
    else if c == '\n' then Some('n') else if c == '\r' then Some('r') else if c == '\t' then Some('t')
    else if c == '\U{000B}' then Some('v') else if c == '\\' then Some('\\') else if c == '"' then Some('"') else None
  }

  function OfLetter(l: byte): Option<byte> {
    if l == 'a' then Some('\U{0007}') else if l == 'b' then Some('\U{0008}') else if l == 'f' then Some('\U{000C}')
    else if l == 'n' then Some('\n') else if l == 'r' then Some('\r') else if l == 't' then Some('\t')
    else if l == 'v' then Some('\U{000B}') else if l == '\\' then Some('\\') else if l == '"' then Some('"') else None
  }

  function EscapeChar(c: byte): Bytes {
    match Letter(c)
    case Some(l) => ['\\', l]
    case None =>
      if c < ' ' || c == '\U{007F}' then ['\\', 'x', HexDigit(c as nat / 16), HexDigit(c as nat % 16)] else [c]
  }

  function Escape(s: Bytes): Bytes { if s == [] then [] else EscapeChar(s[0]) + Escape(s[1..]) }

  /** `strconv.Quote` on ASCII. */
  function Quote(s: Bytes): Bytes { ['"'] + Escape(s) + ['"'] }

  /** One character and what is left; a quote or a line end has to be escaped. */
  function UnescapeChar(s: Bytes): (r: Option<(byte, Bytes)>)
    requires s != []
    ensures r.Some? ==> |r.value.1| < |s|
  {
    if s[0] == '"' || s[0] == '\n' then None
    else if s[0] != '\\' then Some((s[0], s[1..]))
    else if |s| < 2 then None
    else if s[1] == 'x' then
      if |s| < 4 then None
      else match (HexValue(s[2]), HexValue(s[3]))
           case (Some(h), Some(l)) => Some(((16 * h + l) as char, s[4..]))
           case _ => None
    else match OfLetter(s[1]) case Some(c) => Some((c, s[2..])) case None => None
  }

  function Unescape(s: Bytes): Option<Bytes>
    decreases |s|
  {
    if s == [] then Some([])
    else match UnescapeChar(s)
         case None => None
         case Some((c, rest)) => match Unescape(rest) case Some(t) => Some([c] + t) case None => None
  }

  /** `strconv.Unquote` on a text in double quotes. */
  function Unquote(s: Bytes): Option<Bytes> {
    if |s| < 2 || s[0] != '"' || s[|s| - 1] != '"' then None else Unescape(s[1..|s| - 1])
  }

  lemma CharRoundTrip(c: byte, rest: Bytes)
    requires c < '\U{0080}'
    ensures EscapeChar(c) != [] && UnescapeChar(EscapeChar(c) + rest) == Some((c, rest))
  {
    var s := EscapeChar(c) + rest;
    assert s[..|EscapeChar(c)|] == EscapeChar(c) && s[|EscapeChar(c)|..] == rest;
    if Letter(c) == None && (c < ' ' || c == '\U{007F}') {
      assert s[2] == HexDigit(c as nat / 16) && s[3] == HexDigit(c as nat % 16);
    }
  }

  function Prefixed(c: byte, rest: Option<Bytes>): Option<Bytes> {
    match rest case Some(t) => Some([c] + t) case None => None
  }

  lemma UnescapeOne(c: byte, rest: Bytes)
    requires c < '\U{0080}'
    ensures Unescape(EscapeChar(c) + rest) == Prefixed(c, Unescape(rest))
  {
    CharRoundTrip(c, rest);
  }

  lemma EscapeSplit(s: Bytes, rest: Bytes)
    requires s != []
    ensures Escape(s) + rest == EscapeChar(s[0]) + (Escape(s[1..]) + rest)
  {
  }

  function PrefixedAll(s: Bytes, rest: Option<Bytes>): Option<Bytes> {
    match rest case Some(t) => Some(s + t) case None => None
  }

  lemma PrefixedMore(s: Bytes, rest: Option<Bytes>)
    ensures PrefixedAll([], rest) == rest
    ensures s != [] ==> Prefixed(s[0], PrefixedAll(s[1..], rest)) == PrefixedAll(s, rest)
  {
    if rest.Some? {
      assert [] + rest.value == rest.value;
      if s != [] {
        assert [s[0]] + (s[1..] + rest.value) == s + rest.value;
      }
    }
  }

  lemma {:induction false} UnescapeEscaped(s: Bytes, rest: Bytes)
    requires IsAscii(s)
    ensures Unescape(Escape(s) + rest) == PrefixedAll(s, Unescape(rest))
  {
    PrefixedMore(s, Unescape(rest));
    if s == [] {
      assert Escape(s) + rest == rest;
    } else {
      UnescapeEscaped(s[1..], rest);
      UnescapeOne(s[0], Escape(s[1..]) + rest);
      EscapeSplit(s, rest);
    }
  }

  lemma QuoteInside(s: Bytes, more: Bytes)
    ensures var text := Quote(s) + more;
            text[1..|text| - 1] == (Escape(s) + ['"'] + more)[..|Escape(s)| + |more|]
  {
  }

  /** MAIN: a quoted text is read back, and nothing can come after it. */
  lemma QuoteRoundTrip(s: Bytes, more: Bytes)
    requires IsAscii(s)
    ensures Unquote(Quote(s) + more) == if more == [] then Some(s) else None
  {
    var rest := if more == [] then [] else ['"'] + more[..|more| - 1];
    QuoteInside(s, more);
    assert (Escape(s) + ['"'] + more)[..|Escape(s)| + |more|] == Escape(s) + rest;
    UnescapeEscaped(s, rest);
    PrefixedMore(s, Unescape(rest));
    assert s + [] == s;
  }

  // ------------------------------------------------------------------- options

  datatype KeyOption = KeyOption(of: OptionType, value: Bytes)

  function MarshalOption(o: KeyOption): Option<Bytes> {
    if o.of.Empty? then Some([])
    else if HasValue(o.of) then if o.value == [] then None else Some(Name(o.of) + ['='] + Quote(o.value))
    else Some(Name(o.of))
  }

  function UnmarshalOption(text: Bytes): Option<KeyOption> {
    var parts := SplitN(text, '=', 2);
    if parts[0] !in TypesByName() then None
    else
      var t := TypesByName()[parts[0]];
      if HasValue(t) then
        if |parts| != 2 then None
        else match Unquote(parts[1]) case Some(v) => Some(KeyOption(t, v)) case None => None
      else if |parts| > 1 then None
      else Some(KeyOption(t, []))
  }

  /** Options that can be printed and keep what is printed of them: a value exactly if the type has one. */
  predicate Legal(o: KeyOption) {
    !o.of.Empty? && if HasValue(o.of) then o.value != [] && IsAscii(o.value) else o.value == []
  }

  function Print(o: KeyOption): Bytes
    requires Legal(o)
  {
    MarshalOption(o).value
  }

  lemma NamedType(t: OptionType)
    ensures Name(t) in TypesByName() && TypesByName()[Name(t)] == t
  {
    AllTypes(t);
  }

  lemma SplitOnce(s: Bytes)
    ensures SplitN(s, '=', 1) == [s]
  {
    JoinOfSplit(s, '=', 1);
  }

  lemma ValueRoundTrip(o: KeyOption, more: Bytes)
    requires Legal(o) && HasValue(o.of)
    ensures UnmarshalOption(Print(o) + more) == if more == [] then Some(o) else None
  {
    var text := Quote(o.value) + more;
    NamedType(o.of);
    NamesArePlain(o.of);
    SplitHead(Name(o.of), text, '=', 2);
    SplitOnce(text);
    QuoteRoundTrip(o.value, more);
    assert Print(o) + more == Name(o.of) + ['='] + text;
  }

  /** MAIN: a printed option is read back, and if it has a value, nothing can come after it. */
  lemma OptionRoundTrip(o: KeyOption, more: Bytes)
    requires Legal(o)
    ensures UnmarshalOption(Print(o)) == Some(o)
    ensures HasValue(o.of) && more != [] ==> UnmarshalOption(Print(o) + more) == None
  {
    if HasValue(o.of) {
      ValueRoundTrip(o, more);
      ValueRoundTrip(o, []);
      assert Print(o) + [] == Print(o);
    } else {
      NamedType(o.of);
      NamesArePlain(o.of);
      SplitWhole(Name(o.of), '=', 2);
    }
  }

  // ------------------------------------------------------------------- scanner

  /** The loop over the options of a line: how far it is, whether it is inside quotes, the byte before, what it has of
      the option it is at, and the options before; or it has met the blank at its end, or an illegal option. */
  datatype Scanner =
    | Scanning(at: nat, inQuote: bool, last: Option<byte>, piece: Bytes, options: seq<KeyOption>)
    | Ended(at: nat, options: seq<KeyOption>)
    | Failed

  const START: Scanner := Scanning(0, false, None, [], [])

  /** How the text of one option is read. */
  type Reader = Bytes -> Option<KeyOption>

  function Feed1(read: Reader, s: Scanner, b: byte): Scanner {
    match s
    case Scanning(at, inQuote, last, piece, options) =>
      if !inQuote && b in [',', ' ', '\t'] then
        if piece != [] && read(piece) == None then Failed
        else
          var all := if piece == [] then options else options + [read(piece).value];
          if b == ',' then Scanning(at + 1, false, Some(b), [], all) else Ended(at, all)
      else Scanning(at + 1, if b == '"' && last != Some('\\') then !inQuote else inQuote, Some(b), piece + [b], options)
    case _ => s
  }

  function Feed(read: Reader, s: Scanner, text: Bytes): Scanner
    decreases |text|
  {
    if text == [] then s else Feed(read, Feed1(read, s, text[0]), text[1..])
  }

  function Before(line: Bytes, i: nat): Option<byte>
    requires i <= |line|
  {
    if i == 0 then None else Some(line[i - 1])
  }

  /** The loop over the options of a line. */
  method ScanOptions(read: Reader, line: Bytes) returns (r: Scanner)
    ensures r == Feed(read, START, line)
  {
    var inQuote, optionStart: nat := false, 0;
    var options: seq<KeyOption> := [];
    assert line[0..0] == [] && line[0..] == line;
    for i := 0 to |line|
      invariant optionStart <= i
      invariant Feed(read, Scanning(i, inQuote, Before(line, i), line[optionStart..i], options), line[i..])
                == Feed(read, START, line)
    {
      var b := line[i];
      ghost var s := Scanning(i, inQuote, Before(line, i), line[optionStart..i], options);
      ghost var next := Feed1(read, s, b);
      Slices(line, optionStart, i);
      var isEnd := !inQuote && (b == ' ' || b == '\t');
      if (b == ',' && !inQuote) || isEnd {
        if i - optionStart > 0 {
          var option := read(line[optionStart..i]);
          if option.None? {
            FeedStops(read, next, line[i + 1..]);
            return Failed;
          }
          options := options + [option.value];
        }
        optionStart := i + 1;
      }
      if isEnd {
        FeedStops(read, next, line[i + 1..]);
        return Ended(i, options);
      }
      if b == '"' && (i == 0 || (i > 0 && line[i - 1] != '\\')) {
        inQuote := !inQuote;
      }
      assert next == Scanning(i + 1, inQuote, Before(line, i + 1), line[optionStart..i + 1], options);
    }
    return Scanning(|line|, inQuote, Before(line, |line|), line[optionStart..], options);
  }

  lemma Slices(line: Bytes, start: nat, i: nat)
    requires start <= i < |line|
    ensures line[start..i + 1] == line[start..i] + [line[i]] && line[i + 1..i + 1] == []
    ensures line[i..] != [] && line[i..][0] == line[i] && line[i..][1..] == line[i + 1..]
  {
  }

  lemma {:induction false} FeedStops(read: Reader, s: Scanner, text: Bytes)
    requires !s.Scanning?
    ensures Feed(read, s, text) == s
  {
    if text != [] {
      FeedStops(read, s, text[1..]);
    }
  }

  lemma {:induction false} FeedConcat(read: Reader, s: Scanner, a: Bytes, b: Bytes)
    ensures Feed(read, s, a + b) == Feed(read, Feed(read, s, a), b)
    decreases |a|
  {
    if a == [] {
      assert a + b == b;
    } else {
      FeedConcat(read, Feed1(read, s, a[0]), a[1..], b);
      assert (a + b)[0] == a[0] && (a + b)[1..] == a[1..] + b;
    }
  }

  // --------------------------------------------------------------- whole lines

  const ALGORITHMS: seq<Bytes> := [
    "ssh-rsa", "ssh-dss", "ecdsa-sha2-nistp256", "ecdsa-sha2-nistp384", "ecdsa-sha2-nistp521",
    "sk-ecdsa-sha2-nistp256@openssh.com", "ssh-ed25519", "sk-ssh-ed25519@openssh.com"]

  predicate IsBlank(b: byte) { b == ' ' || b == '\t' }

  /** Position of the first blank, or the length. */
  function FirstBlank(s: Bytes): (i: nat)
    ensures i <= |s| && (i < |s| ==> IsBlank(s[i])) && forall j :: 0 <= j < i ==> !IsBlank(s[j])
  {
    if s == [] || IsBlank(s[0]) then 0 else FirstBlank(s[1..]) + 1
  }

  /** `cutOffSshKeyAlgo`: the algorithm and what comes after the blank behind it. */
  function CutOffAlgorithm(s: Bytes): Option<(Bytes, Bytes)> {
    var i := FirstBlank(s);
    if i == |s| || s[..i] !in ALGORITHMS then None else Some((s[..i], s[i + 1..]))
  }

  function DropBlanks(s: Bytes): Bytes { if s != [] && IsBlank(s[0]) then DropBlanks(s[1..]) else s }

  /** What a line is before its key is decoded. */
  datatype Parsed = Skipped | Illegal | Entry(options: seq<KeyOption>, algorithm: Bytes, rest: Bytes)

  predicate IsSpace(b: byte) { b == ' ' || '\t' <= b <= '\r' }

  function TrimLeft(s: Bytes): Bytes { if s != [] && IsSpace(s[0]) then TrimLeft(s[1..]) else s }

  function TrimRight(s: Bytes): Bytes { if s != [] && IsSpace(s[|s| - 1]) then TrimRight(s[..|s| - 1]) else s }

  /** `bytes.TrimSpace` on ASCII white space. */
  function Trim(s: Bytes): Bytes { TrimRight(TrimLeft(s)) }

  /** `parseAuthorizedKey` up to the decoding of the key. */
  function ParsedLine(line: Bytes): Parsed { ParsedTrimmed(Trim(line)) }

  /** The same without white space around the line. A line whose loop over the options comes to its end has no
      algorithm. */
  function ParsedTrimmed(line: Bytes): Parsed {
    if line == [] || line[0] == '#' then Skipped
    else match CutOffAlgorithm(line)
         case Some((algorithm, rest)) => Entry([], algorithm, rest)
         case None => AfterOptions(line, Feed(UnmarshalOption, START, line))
  }

  function AfterOptions(line: Bytes, scanned: Scanner): Parsed {
    match scanned
    case Ended(at, options) =>
      if at > |line| then Illegal
      else (match CutOffAlgorithm(DropBlanks(line[at..]))
            case Some((algorithm, rest)) => Entry(options, algorithm, rest)
            case None => Illegal)
    case _ => Illegal
  }

  // ------------------------------------------------ the scanner and the printer

  /** Bytes that mean nothing to the scanner. */
  ghost predicate Quiet(text: Bytes) { forall i :: 0 <= i < |text| ==> text[i] !in ['"', ',', ' ', '\t'] }

  function LastOr(text: Bytes, last: Option<byte>): Option<byte> { if text == [] then last else Some(text[|text| - 1]) }

  /** A scanner that has taken some text into its piece. */
  function After(s: Scanner, inQuote: bool, text: Bytes): Scanner
    requires s.Scanning?
  {
    Scanning(s.at + |text|, inQuote, LastOr(text, s.last), s.piece + text, s.options)
  }

  ghost predicate Takes(read: Reader, s: Scanner, text: Bytes, inQuote: bool) {
    s.Scanning? && Feed(read, s, text) == After(s, inQuote, text)
  }

  lemma TakesBoth(read: Reader, s: Scanner, a: Bytes, between: bool, b: Bytes, inQuote: bool)
    requires Takes(read, s, a, between) && Takes(read, After(s, between, a), b, inQuote)
    ensures Takes(read, s, a + b, inQuote)
  {
    FeedConcat(read, s, a, b);
    assert s.piece + a + b == s.piece + (a + b);
  }

  lemma TakesOne(read: Reader, s: Scanner, b: byte, inQuote: bool)
    requires s.Scanning? && Feed1(read, s, b) == Scanning(s.at + 1, inQuote, Some(b), s.piece + [b], s.options)
    ensures Takes(read, s, [b], inQuote)
  {
    assert [b][1..] == [];
  }

  lemma TakesNothing(read: Reader, s: Scanner)
    requires s.Scanning?
    ensures Takes(read, s, [], s.inQuote)
  {
    assert s.piece + [] == s.piece;
  }

  lemma {:induction false} TakesQuiet(read: Reader, s: Scanner, text: Bytes)
    requires Quiet(text) && s.Scanning?
    ensures Takes(read, s, text, s.inQuote)
    decreases |text|
  {
    if text == [] {
      TakesNothing(read, s);
    } else {
      TakesOne(read, s, text[0], s.inQuote);
      TakesQuiet(read, After(s, s.inQuote, [text[0]]), text[1..]);
      TakesBoth(read, s, [text[0]], s.inQuote, text[1..], s.inQuote);
      assert [text[0]] + text[1..] == text;
    }
  }

  lemma EscapeIs(c: byte)
    ensures var text := EscapeChar(c);
            && text != [] && (text[|text| - 1] == '\\' <==> c == '\\')
            && (Quiet(text) || text == [c] || text == ['\\', c] || text == ['\\', '"'])
            && (text == [c] ==> c != '"')
  {
  }

  /** One escaped character inside quotes: an escaped quote does not end them. */
  lemma TakesChar(read: Reader, s: Scanner, c: byte)
    requires s.Scanning? && s.inQuote
    ensures Takes(read, s, EscapeChar(c), true)
  {
    var text := EscapeChar(c);
    EscapeIs(c);
    if Quiet(text) {
      TakesQuiet(read, s, text);
    } else {
      TakesOne(read, s, text[0], true);
      if |text| == 2 {
        TakesOne(read, After(s, true, [text[0]]), text[1], true);
        TakesBoth(read, s, [text[0]], true, [text[1]], true);
        assert [text[0]] + [text[1]] == text;
      }
    }
  }

  lemma {:induction false} TakesEscaped(read: Reader, s: Scanner, v: Bytes)
    requires s.Scanning? && s.inQuote
    ensures Takes(read, s, Escape(v), true)
    decreases |v|
  {
    if v == [] {
      TakesNothing(read, s);
    } else {
      TakesChar(read, s, v[0]);
      TakesEscaped(read, After(s, true, EscapeChar(v[0])), v[1..]);
      TakesBoth(read, s, EscapeChar(v[0]), true, Escape(v[1..]), true);
    }
  }

  lemma {:induction false} EscapeLast(v: Bytes)
    requires v != []
    ensures Escape(v) != [] && (Escape(v)[|Escape(v)| - 1] == '\\' <==> v[|v| - 1] == '\\')
  {
    EscapeIs(v[0]);
    if |v| > 1 {
      EscapeLast(v[1..]);
    }
  }

  /** An option whose closing quote looks escaped. */
  predicate Unclosed(o: KeyOption) { HasValue(o.of) && o.value != [] && o.value[|o.value| - 1] == '\\' }

  lemma TakesQuote(read: Reader, s: Scanner, v: Bytes)
    requires s.Scanning? && !s.inQuote && s.last == Some('=') && v != []
    ensures Takes(read, s, Quote(v), v[|v| - 1] == '\\')
  {
    TakesOne(read, s, '"', true);
    var s1 := After(s, true, ['"']);
    TakesEscaped(read, s1, v);
    TakesBoth(read, s, ['"'], true, Escape(v), true);
    EscapeLast(v);
    TakesOne(read, After(s1, true, Escape(v)), '"', v[|v| - 1] == '\\');
    assert After(s, true, ['"'] + Escape(v)) == After(s1, true, Escape(v)) by {
      assert s.piece + (['"'] + Escape(v)) == s.piece + ['"'] + Escape(v);
    }
    TakesBoth(read, s, ['"'] + Escape(v), true, ['"'], v[|v| - 1] == '\\');
  }

  /** After an option the scanner has it as its piece, outside the quotes unless its value ends in a backslash. */
  lemma TakesOption(read: Reader, s: Scanner, o: KeyOption)
    requires Legal(o) && s.Scanning? && !s.inQuote
    ensures Takes(read, s, Print(o), Unclosed(o))
  {
    var name := Name(o.of);
    NamesArePlain(o.of);
    if HasValue(o.of) {
      assert Quiet(name + ['=']);
      TakesQuiet(read, s, name + ['=']);
      TakesQuote(read, After(s, false, name + ['=']), o.value);
      TakesBoth(read, s, name + ['='], false, Quote(o.value), Unclosed(o));
    } else {
      TakesQuiet(read, s, name);
    }
  }

  // -------------------------------------------------------------- option lists

  /** The text of an option: it is read back, the scanner takes it, and comes to be outside the quotes unless the
      option is unclosed; then nothing that has more after it can be read. */
  ghost predicate Item(read: Reader, text: Bytes, o: KeyOption, unclosed: bool) {
    && text != [] && read(text) == Some(o)
    && (unclosed ==> forall more: Bytes :: more != [] ==> read(text + more) == None)
    && forall s: Scanner {:trigger Takes(read, s, text, unclosed)} :: s.Scanning? && !s.inQuote ==>
         Takes(read, s, text, unclosed)
  }

  ghost predicate Items(read: Reader, texts: seq<Bytes>, options: seq<KeyOption>, unclosed: seq<bool>) {
    && |texts| == |options| == |unclosed|
    && forall i :: 0 <= i < |texts| ==> Item(read, texts[i], options[i], unclosed[i])
  }

  lemma FeedItem(read: Reader, at: nat, last: Option<byte>, done: seq<KeyOption>, text: Bytes, o: KeyOption, sep: byte)
    requires Item(read, text, o, false) && sep in [',', ' ', '\t']
    ensures Feed(read, Scanning(at, false, last, [], done), text + [sep])
         == if sep == ',' then Scanning(at + |text| + 1, false, Some(','), [], done + [o])
           else Ended(at + |text|, done + [o])
  {
    var s := Scanning(at, false, last, [], done);
    assert Takes(read, s, text, false);
    FeedConcat(read, s, text, [sep]);
    assert [sep][1..] == [];
    assert [] + text == text;
  }

  lemma JoinMore(texts: seq<Bytes>, tail: Bytes)
    requires |texts| > 1
    ensures Join(texts, ',') + [' '] + tail == (texts[0] + [',']) + (Join(texts[1..], ',') + [' '] + tail)
  {
  }

  lemma {:induction false} FeedItems(read: Reader, at: nat, last: Option<byte>, done: seq<KeyOption>,
                                     texts: seq<Bytes>, options: seq<KeyOption>, unclosed: seq<bool>, tail: Bytes)
    requires Items(read, texts, options, unclosed) && texts != [] && true !in unclosed
    ensures Feed(read, Scanning(at, false, last, [], done), Join(texts, ',') + [' '] + tail)
            == Ended(at + |Join(texts, ',')|, done + options)
    decreases |texts|
  {
    var s, text, o := Scanning(at, false, last, [], done), texts[0], options[0];
    assert unclosed[0] == false;
    if |texts| == 1 {
      FeedItem(read, at, last, done, text, o, ' ');
      FeedConcat(read, s, text + [' '], tail);
      FeedStops(read, Ended(at + |text|, done + [o]), tail);
      assert options == [o];
    } else {
      FeedItem(read, at, last, done, text, o, ',');
      FeedItems(read, at + |text| + 1, Some(','), done + [o], texts[1..], options[1..], unclosed[1..], tail);
      JoinMore(texts, tail);
      FeedConcat(read, s, text + [','], Join(texts[1..], ',') + [' '] + tail);
      assert done + [o] + options[1..] == done + options;
    }
  }

  /** The scanner is past an unclosed option, or inside its quotes, and still has all of its text in its piece. */
  ghost predicate Stuck(s: Scanner, text: Bytes) {
    s.Failed? || (s.Scanning? && text <= s.piece && (s.inQuote || |s.piece| > |text|))
  }

  lemma {:induction false} StaysStuck(read: Reader, s: Scanner, text: Bytes, o: KeyOption, rest: Bytes)
    requires Item(read, text, o, true) && Stuck(s, text)
    ensures Stuck(Feed(read, s, rest), text)
    decreases |rest|
  {
    if rest != [] {
      if s.Scanning? && !s.inQuote {
        var more := s.piece[|text|..];
        assert text + more == s.piece;
      }
      StaysStuck(read, Feed1(read, s, rest[0]), text, o, rest[1..]);
    }
  }

  lemma {:induction false} FeedUnclosed(read: Reader, at: nat, last: Option<byte>, done: seq<KeyOption>,
                                        texts: seq<Bytes>, options: seq<KeyOption>, unclosed: seq<bool>, tail: Bytes)
    requires Items(read, texts, options, unclosed) && true in unclosed
    ensures !Feed(read, Scanning(at, false, last, [], done), Join(texts, ',') + [' '] + tail).Ended?
    decreases |texts|
  {
    var s, text, o, line := Scanning(at, false, last, [], done), texts[0], options[0], Join(texts, ',') + [' '] + tail;
    if unclosed[0] {
      var rest := line[|text|..];
      assert line == text + rest;
      assert Takes(read, s, text, true);
      FeedConcat(read, s, text, rest);
      StaysStuck(read, After(s, true, text), text, o, rest);
    } else {
      FeedItem(read, at, last, done, text, o, ',');
      FeedUnclosed(read, at + |text| + 1, Some(','), done + [o], texts[1..], options[1..], unclosed[1..], tail);
      JoinMore(texts, tail);
      FeedConcat(read, s, text + [','], Join(texts[1..], ',') + [' '] + tail);
    }
  }

  lemma NameStart(t: OptionType)
    requires !t.Empty?
    ensures |Name(t)| >= 3 && Name(t)[0] != 's' && !(Name(t)[0] == 'e' && Name(t)[1] == 'c') && Name(t)[0] != '#'
  {
  }

  ghost predicate AllLegal(options: seq<KeyOption>) { forall i :: 0 <= i < |options| ==> Legal(options[i]) }

  ghost predicate AllClosed(options: seq<KeyOption>) { forall i :: 0 <= i < |options| ==> !Unclosed(options[i]) }

  function Texts(options: seq<KeyOption>): seq<Bytes>
    requires forall i :: 0 <= i < |options| ==> Legal(options[i])
  {
    seq(|options|, i requires 0 <= i < |options| => Print(options[i]))
  }

  lemma PrintedIsItem(o: KeyOption)
    requires Legal(o)
    ensures Item(UnmarshalOption, Print(o), o, Unclosed(o))
  {
    NameStart(o.of);
    OptionRoundTrip(o, []);
    forall more: Bytes | Unclosed(o) && more != [] ensures UnmarshalOption(Print(o) + more) == None {
      OptionRoundTrip(o, more);
    }
    forall s: Scanner | s.Scanning? && !s.inQuote ensures Takes(UnmarshalOption, s, Print(o), Unclosed(o)) {
      TakesOption(UnmarshalOption, s, o);
    }
  }

  lemma AlgorithmsAre(algorithm: Bytes)
    requires algorithm in ALGORITHMS
    ensures |algorithm| > 2 && (algorithm[0] == 's' || (algorithm[0] == 'e' && algorithm[1] == 'c'))
    ensures forall i :: 0 <= i < |algorithm| ==> '-' <= algorithm[i] <= 'z' && !IsSpace(algorithm[i])
    ensures Quiet(algorithm)
  {
  }

  lemma {:induction false} FirstBlankIs(a: Bytes, rest: Bytes)
    requires forall i :: 0 <= i < |a| ==> !IsBlank(a[i])
    ensures FirstBlank(a + [' '] + rest) == |a|
  {
    if a != [] {
      FirstBlankIs(a[1..], rest);
      assert (a + [' '] + rest)[1..] == a[1..] + [' '] + rest;
    }
  }

  lemma CutsOff(algorithm: Bytes, rest: Bytes)
    requires algorithm in ALGORITHMS
    ensures CutOffAlgorithm(algorithm + [' '] + rest) == Some((algorithm, rest))
    ensures DropBlanks([' '] + algorithm + [' '] + rest) == algorithm + [' '] + rest
  {
    var s := algorithm + [' '] + rest;
    AlgorithmsAre(algorithm);
    FirstBlankIs(algorithm, rest);
    assert s[..|algorithm|] == algorithm && s[|algorithm| + 1..] == rest;
    assert ([' '] + algorithm + [' '] + rest)[1..] == s;
  }

  /** No line that starts with an option starts with an algorithm or a comment. */
  lemma StartsWithOption(o: KeyOption, line: Bytes)
    requires Legal(o) && Name(o.of) <= line
    ensures line != [] && line[0] != '#' && CutOffAlgorithm(line) == None
  {
    var name := Name(o.of);
    NameStart(o.of);
    NamesArePlain(o.of);
    assert forall i :: 0 <= i < |name| ==> line[i] == name[i];
    var token := line[..FirstBlank(line)];
    if token in ALGORITHMS {
      AlgorithmsAre(token);
    }
  }

  lemma FirstIsFirst(texts: seq<Bytes>, name: Bytes, tail: Bytes)
    requires texts != [] && name <= texts[0]
    ensures name <= Join(texts, ',') + tail
  {
    assert texts[0] <= Join(texts, ',');
  }

  function PrintLine(options: seq<KeyOption>, algorithm: Bytes, rest: Bytes): Bytes
    requires forall i :: 0 <= i < |options| ==> Legal(options[i])
  {
    Join(Texts(options), ',') + [' '] + (algorithm + [' '] + rest)
  }

  /** A line that starts with an option is as its options are scanned. */
  lemma LineIs(o: KeyOption, text: Bytes, tail: Bytes)
    requires Legal(o) && Name(o.of) <= text + [' ']
    ensures var line := text + [' '] + tail;
            ParsedTrimmed(line) == AfterOptions(line, Feed(UnmarshalOption, START, line))
  {
    assert text + [' '] <= text + [' '] + tail;
    StartsWithOption(o, text + [' '] + tail);
  }

  /** What follows the options is taken apart if there is something after the algorithm. */
  lemma TailIs(text: Bytes, options: seq<KeyOption>, algorithm: Bytes, rest: Bytes)
    requires algorithm in ALGORITHMS
    ensures AfterOptions(text + [' '] + (algorithm + [' '] + rest), Ended(|text|, options))
            == Entry(options, algorithm, rest)
  {
    var line := text + [' '] + (algorithm + [' '] + rest);
    CutsOff(algorithm, rest);
    assert line[|text|..] == [' '] + algorithm + [' '] + rest;
  }

  lemma BareTailIs(text: Bytes, options: seq<KeyOption>, word: Bytes)
    requires Quiet(word)
    ensures AfterOptions(text + [' '] + word, Ended(|text|, options)) == Illegal
  {
    var bare := text + [' '] + word;
    assert bare[|text|..] == [' '] + word;
    assert ([' '] + word)[1..] == word;
    assert DropBlanks([' '] + word) == DropBlanks(word) == word;
    NoBlank(word);
  }

  /** A word alone is not an algorithm with a key. */
  lemma BareLineIs(word: Bytes)
    requires Quiet(word) && word != [] && word[0] != '#'
    ensures ParsedTrimmed(word) == Illegal
  {
    NoBlank(word);
    TakesQuiet(UnmarshalOption, START, word);
  }

  lemma {:induction false} NoBlank(s: Bytes)
    requires forall i :: 0 <= i < |s| ==> !IsBlank(s[i])
    ensures FirstBlank(s) == |s|
  {
    if s != [] {
      NoBlank(s[1..]);
    }
  }

  lemma {:induction false} TrimRightConcat(a: Bytes, b: Bytes)
    ensures TrimRight(a + b) == if TrimRight(b) == [] then TrimRight(a) else a + TrimRight(b)
    decreases |b|
  {
    if b == [] {
      assert a + b == a;
    } else if IsSpace(b[|b| - 1]) {
      TrimRightConcat(a, b[..|b| - 1]);
      assert (a + b)[..|a + b| - 1] == a + b[..|b| - 1];
    }
  }

  lemma TrimRightAfter(front: Bytes, rest: Bytes)
    requires front != [] && !IsSpace(front[|front| - 1])
    ensures TrimRight(front + [' '] + rest) == if TrimRight(rest) == [] then front else front + [' '] + TrimRight(rest)
  {
    TrimRightConcat(front + [' '], rest);
    TrimRightConcat(front, [' ']);
    assert [' '][..0] == [];
  }

  /** Trimming a line with an algorithm leaves what comes before it, and what comes after it if it is not blank. */
  lemma TrimsTo(head: Bytes, algorithm: Bytes, rest: Bytes)
    requires algorithm != [] && !IsSpace(algorithm[0]) && !IsSpace(algorithm[|algorithm| - 1])
    requires head != [] ==> !IsSpace(head[0])
    ensures Trim(head + (algorithm + [' '] + rest))
         == head + if TrimRight(rest) == [] then algorithm else algorithm + [' '] + TrimRight(rest)
  {
    var front := head + algorithm;
    FirstOf(head, algorithm);
    assert front[|front| - 1] == algorithm[|algorithm| - 1];
    TrimsRightOnly(front, [' '] + rest);
    TrimRightAfter(front, rest);
    Regroup(head, algorithm, rest);
    Regroup(head, algorithm, TrimRight(rest));
  }

  lemma FirstOf(head: Bytes, word: Bytes)
    requires word != []
    ensures (head + word)[0] == if head == [] then word[0] else head[0]
  {
  }

  lemma TrimsRightOnly(front: Bytes, rest: Bytes)
    requires front != [] && !IsSpace(front[0])
    ensures Trim(front + rest) == TrimRight(front + rest)
  {
  }

  lemma Regroup(a: Bytes, b: Bytes, c: Bytes)
    ensures a + (b + [' '] + c) == a + b + [' '] + c == a + b + ([' '] + c)
  {
  }

  function Flags(options: seq<KeyOption>): seq<bool> {
    seq(|options|, i requires 0 <= i < |options| => Unclosed(options[i]))
  }

  lemma FirstText(options: seq<KeyOption>)
    requires AllLegal(options) && options != []
    ensures Name(options[0].of) <= Join(Texts(options), ',') + [' ']
  {
    assert Name(options[0].of) <= Texts(options)[0];
    FirstIsFirst(Texts(options), Name(options[0].of), [' ']);
  }

  lemma PrintedAreItems(options: seq<KeyOption>)
    requires AllLegal(options)
    ensures Items(UnmarshalOption, Texts(options), options, Flags(options))
  {
    forall i | 0 <= i < |options| ensures Item(UnmarshalOption, Texts(options)[i], options[i], Flags(options)[i]) {
      PrintedIsItem(options[i]);
    }
  }

  /** The scanner comes to the end of the options exactly when all of them are closed, and then it has them. */
  lemma OptionsScanned(options: seq<KeyOption>, tail: Bytes)
    requires AllLegal(options) && options != []
    ensures var text := Join(Texts(options), ',');
            var scanned := Feed(UnmarshalOption, START, text + [' '] + tail);
            if AllClosed(options) then scanned == Ended(|text|, options) else !scanned.Ended?
  {
    var texts, unclosed := Texts(options), Flags(options);
    PrintedAreItems(options);
    if AllClosed(options) {
      FeedItems(UnmarshalOption, 0, None, [], texts, options, unclosed, tail);
      assert [] + options == options;
    } else {
      var i :| 0 <= i < |options| && Unclosed(options[i]);
      assert unclosed[i];
      FeedUnclosed(UnmarshalOption, 0, None, [], texts, options, unclosed, tail);
    }
  }

  /** MAIN: a line of printed options, an algorithm and something after it is taken apart into the same, exactly
      when no value of an option ends in a backslash and what comes last is not blank; otherwise it is illegal. */
  lemma LineRoundTrip(options: seq<KeyOption>, algorithm: Bytes, rest: Bytes)
    requires AllLegal(options) && options != [] && algorithm in ALGORITHMS
    ensures ParsedLine(PrintLine(options, algorithm, rest))
         == if AllClosed(options) && TrimRight(rest) != [] then Entry(options, algorithm, TrimRight(rest)) else Illegal
  {
    var text := Join(Texts(options), ',');
    var tail := if TrimRight(rest) == [] then algorithm else algorithm + [' '] + TrimRight(rest);
    FirstText(options);
    NameStart(options[0].of);
    NamesArePlain(options[0].of);
    assert (text + [' '])[0] == Name(options[0].of)[0];
    AlgorithmsAre(algorithm);
    TrimsTo(text + [' '], algorithm, rest);
    LineIs(options[0], text, tail);
    OptionsScanned(options, tail);
    TailIs(text, options, algorithm, TrimRight(rest));
    BareTailIs(text, options, algorithm);
  }

  /** A line without options. */
  lemma PlainLine(algorithm: Bytes, rest: Bytes)
    requires algorithm in ALGORITHMS
    ensures ParsedLine(algorithm + [' '] + rest) == if TrimRight(rest) != [] then Entry([], algorithm, TrimRight(rest))
            else Illegal
  {
    AlgorithmsAre(algorithm);
    TrimsTo([], algorithm, rest);
    assert [] + (algorithm + [' '] + rest) == algorithm + [' '] + rest;
    if TrimRight(rest) == [] {
      assert [] + algorithm == algorithm;
      BareLineIs(algorithm);
    } else {
      var line := algorithm + [' '] + TrimRight(rest);
      assert [] + line == line;
      CutsOff(algorithm, TrimRight(rest));
    }
  }

  /** `parseAuthorizedKey` up to the decoding of the key. */
  method ParseLine(text: Bytes) returns (r: Parsed)
    ensures r == ParsedLine(text)
  {
    var line := Trim(text);
    if |line| == 0 || line[0] == '#' { return Skipped; }
    var cut := CutOffAlgorithm(line);
    if cut.Some? { return Entry([], cut.value.0, cut.value.1); }
    var scanned := ScanOptions(UnmarshalOption, line);
    if !scanned.Ended? || scanned.at > |line| { return Illegal; }
    var i := scanned.at;
    while i < |line| && IsBlank(line[i])
      invariant scanned.at <= i <= |line| && DropBlanks(line[i..]) == DropBlanks(line[scanned.at..])
    {
      assert line[i..][1..] == line[i + 1..];
      i := i + 1;
    }
    cut := CutOffAlgorithm(line[i..]);
    r := if cut.Some? then Entry(scanned.options, cut.value.0, cut.value.1) else Illegal;
  }
}
