/** Files of colon separated lines: the scanner that cuts them into lines, one line, and whole files. */
module ColonCodec {
  import opened Bytes

  /** Longest line, line end included, that `bufio.Scanner` returns; a longer one ends the scan silently. */
  const MAX_TOKEN: nat := 65536

  /** The reading and printing of one kind of row, as column lists. `None` stands for an error. */
  datatype Codec<!T> = Codec(columns: nat, decode: seq<Bytes> -> Option<T>, encode: T -> Option<seq<Bytes>>)

  /** One line: a row that was understood, or the text of one that was not. `Raw([])` is an empty line. */
  datatype Line<+T> = Parsed(entry: T) | Raw(raw: Bytes)

  /** What a writing loop has put into the file, and whether it came to its end. */
  datatype Written = Written(bytes: Bytes, ok: bool)

  // ------------------------------------------------------------------ scanner

  predicate EndsWithCr(s: Bytes) { s != [] && s[|s| - 1] == '\r' }

  function DropCr(s: Bytes): Bytes { if EndsWithCr(s) then s[..|s| - 1] else s }

  /** One step of `bufio.Scanner` with `bufio.ScanLines`: the next line and what is left, or the end. */
  function Scan(data: Bytes): (r: Option<(Bytes, Bytes)>)
    ensures r.Some? ==> |r.value.1| < |data|
  {
    if data == [] then None
    else if '\n' in data then
      var i := IndexOf(data, '\n');
      if i + 1 > MAX_TOKEN then None else Some((DropCr(data[..i]), data[i + 1..]))
    else if |data| >= MAX_TOKEN then None
    else Some((DropCr(data), []))
  }

  function ScanLines(data: Bytes): seq<Bytes>
    decreases |data|
  {
    match Scan(data)
    case None => []
    case Some((line, rest)) => [line] + ScanLines(rest)
  }

  // ----------------------------------------------------------------- one line

  function DecodeLine<T>(c: Codec<T>, raw: Bytes, allowBadLine: bool): Option<Line<T>> {
    var bad := if allowBadLine then Some(Raw(raw)) else None;
    var parts := SplitN(raw, ':', c.columns + 1);
    if parts == [[]] then Some(Raw([]))
    else if |parts| != c.columns then bad
    else match c.decode(parts)
         case Some(entry) => Some(Parsed(entry))
         case None => bad
  }

  function EncodeLine<T>(c: Codec<T>, line: Line<T>): Option<Bytes> {
    match line
    case Parsed(entry) =>
      (match c.encode(entry)
       case Some(columns) => Some(Join(columns, ':') + ['\n'])
       case None => None)
    case Raw(raw) => Some(if raw == [] then [] else raw + ['\n'])
  }

  // -------------------------------------------------------------- whole files

  function DecodeLines<T>(c: Codec<T>, raws: seq<Bytes>, allowBadLine: bool): Option<seq<Line<T>>> {
    if raws == [] then Some([])
    else match (DecodeLine(c, raws[0], allowBadLine), DecodeLines(c, raws[1..], allowBadLine))
         case (Some(line), Some(rest)) => Some([line] + rest)
         case _ => None
  }

  /** `etcColonEntries.decode`. */
  function DecodeFile<T>(c: Codec<T>, data: Bytes, allowBadLine: bool): Option<seq<Line<T>>> {
    DecodeLines(c, ScanLines(data), allowBadLine)
  }

  /** `etcColonEntries.encode`: an unprintable row ends the writing, but the lines before it are in the file. */
  function EncodeFile<T>(c: Codec<T>, lines: seq<Line<T>>): Written {
    if lines == [] then Written([], true)
    else match EncodeLine(c, lines[0])
         case None => Written([], false)
         case Some(text) => var rest := EncodeFile(c, lines[1..]); Written(text + rest.bytes, rest.ok)
  }

  function NonEmpty<T(==)>(lines: seq<Line<T>>): seq<Line<T>> {
    if lines == [] then []
    else (if lines[0] == Raw([]) then [] else [lines[0]]) + NonEmpty(lines[1..])
  }

  // ----------------------------------------------------- what a kind of row owes

  ghost predicate Plain(column: Bytes) { ':' !in column && '\n' !in column }

  /** A printed row has the right number of columns and is read back as it was. */
  ghost predicate PrintsBack<T>(c: Codec<T>, t: T) {
    c.encode(t).Some? ==> |c.encode(t).value| == c.columns && c.decode(c.encode(t).value) == Some(t)
  }

  /** A row that was read is printed with every column either as it was or free of separators, and the last one
      always as it was. */
  ghost predicate ReadsBack<T>(c: Codec<T>, cols: seq<Bytes>) {
    |cols| == c.columns && c.decode(cols).Some? ==>
      && c.encode(c.decode(cols).value).Some?
      && var again := c.encode(c.decode(cols).value).value;
         && |again| == |cols|
         && (forall i :: 0 <= i < |cols| ==> again[i] == cols[i] || Plain(again[i]))
         && (cols != [] ==> again[|cols| - 1] == cols[|cols| - 1])
  }

  ghost predicate Lawful<T(!new)>(c: Codec<T>) {
    c.columns >= 2 && (forall t :: PrintsBack(c, t)) && (forall cols :: ReadsBack(c, cols))
  }

  // --------------------------------------------------------------- round trip

  /** What a line has to look like to survive being written and read again. */
  ghost predicate Stable<T>(c: Codec<T>, line: Line<T>, allowBadLine: bool) {
    match line
    case Parsed(entry) =>
      && c.encode(entry).Some?
      && var columns := c.encode(entry).value;
         && (forall i :: 0 <= i < |columns| ==> Plain(columns[i]))
         && !EndsWithCr(Join(columns, ':'))
         && |Join(columns, ':')| < MAX_TOKEN
    case Raw(raw) =>
      && '\n' !in raw && !EndsWithCr(raw) && |raw| < MAX_TOKEN
      && DecodeLine(c, raw, allowBadLine) == Some(line)
  }

  lemma {:induction false} NewlineInJoin(parts: seq<Bytes>)
    ensures '\n' in Join(parts, ':') <==> exists i :: 0 <= i < |parts| && '\n' in parts[i]
  {
    if |parts| > 1 {
      NewlineInJoin(parts[1..]);
      assert forall i :: 0 < i < |parts| ==> parts[i] == parts[1..][i - 1];
      assert forall i :: 0 <= i < |parts| - 1 ==> parts[1..][i] == parts[i + 1];
    }
  }

  /** The text of one non-empty line, without its line end. */
  ghost function Text<T>(c: Codec<T>, line: Line<T>): Bytes
    requires EncodeLine(c, line).Some?
  {
    match line
    case Parsed(entry) => Join(c.encode(entry).value, ':')
    case Raw(raw) => raw
  }

  lemma ScanFirst(text: Bytes, rest: Bytes)
    requires '\n' !in text
    ensures ScanLines(text + ['\n'] + rest) ==
            if |text| < MAX_TOKEN then [DropCr(text)] + ScanLines(rest) else []
  {
    var data := text + ['\n'] + rest;
    assert data[|text|] == '\n';
    IndexOfFirst(text, rest, '\n');
  }

  lemma ScanNoNewline(data: Bytes)
    ensures forall i :: 0 <= i < |ScanLines(data)| ==> '\n' !in ScanLines(data)[i]
    decreases |data|
  {
    if '\n' in data {
      ScanNoNewline(data[IndexOf(data, '\n') + 1..]);
    }
  }

  /** A printed row is read back from its own text exactly when no column holds a colon. */
  lemma RowRoundTrip<T(!new)>(c: Codec<T>, entry: T, allowBadLine: bool)
    requires Lawful(c) && c.encode(entry).Some?
    ensures DecodeLine(c, Join(c.encode(entry).value, ':'), allowBadLine) == Some(Parsed(entry))
       <==> Free(c.encode(entry).value, ':')
  {
    var columns := c.encode(entry).value;
    assert PrintsBack(c, entry);
    SplitOfJoin(columns, ':', c.columns + 1);
    var parts := SplitN(Join(columns, ':'), ':', c.columns + 1);
    if Free(columns, ':') {
      assert parts == columns;
    } else {
      assert |parts| > c.columns;
    }
  }

  /** Column lists with the same last column: cutting a carriage return off one text never gives the other. */
  lemma CutChangesJoin(cols: seq<Bytes>, again: seq<Bytes>)
    requires |cols| > 1 && |again| > 1 && cols[|cols| - 1] == again[|again| - 1]
    requires Free(cols, ':') && EndsWithCr(Join(again, ':'))
    ensures Join(cols, ':') != DropCr(Join(again, ':'))
  {
    JoinLast(cols, ':');
    JoinLast(again, ':');
    var j, text, last := Join(cols, ':'), Join(again, ':'), cols[|cols| - 1];
    assert text[|text| - |last| - 1] == ':';
    assert j[|j| - |last|..][0] == last[0];
  }

  /** Reading the text of a line, cut off a carriage return it ends with, never gives the line. */
  lemma CrChangesLine<T(!new)>(c: Codec<T>, line: Line<T>, allowBadLine: bool)
    requires Lawful(c) && EncodeLine(c, line).Some? && EndsWithCr(Text(c, line))
    ensures DecodeLine(c, DropCr(Text(c, line)), allowBadLine) != Some(line)
  {
    var cut := DropCr(Text(c, line));
    if line.Parsed? {
      var cols := SplitN(cut, ':', c.columns + 1);
      if |cols| == c.columns && c.decode(cols) == Some(line.entry) {
        assert ReadsBack(c, cols);
        SplitFree(cut, ':', c.columns);
        JoinOfSplit(cut, ':', c.columns + 1);
        CutChangesJoin(cols, c.encode(line.entry).value);
      }
    }
  }

  lemma NewlineInSplit(raw: Bytes, n: nat)
    requires n > 0
    ensures '\n' in raw <==> exists i :: 0 <= i < |SplitN(raw, ':', n)| && '\n' in SplitN(raw, ':', n)[i]
  {
    JoinOfSplit(raw, ':', n);
    NewlineInJoin(SplitN(raw, ':', n));
  }

  /** A line that was read can be written; it is stable unless a carriage return or its length forbids it. */
  lemma ReadLine<T(!new)>(c: Codec<T>, raw: Bytes, line: Line<T>, allowBadLine: bool)
    requires Lawful(c) && '\n' !in raw && DecodeLine(c, raw, allowBadLine) == Some(line)
    ensures EncodeLine(c, line).Some? && '\n' !in Text(c, line)
    ensures Stable(c, line, allowBadLine) <==> !EndsWithCr(Text(c, line)) && |Text(c, line)| < MAX_TOKEN
  {
    if line.Raw? {
      JoinOfSplit(raw, ':', c.columns + 1);
    } else {
      var cols := SplitN(raw, ':', c.columns + 1);
      assert ReadsBack(c, cols);
      var again := c.encode(line.entry).value;
      SplitFree(raw, ':', c.columns);
      NewlineInSplit(raw, c.columns + 1);
      assert forall i :: 0 <= i < |again| ==> Plain(again[i]);
      NewlineInJoin(again);
    }
  }

  /** The first line of a written file is read back exactly when it is stable. */
  lemma FirstLine<T(!new)>(c: Codec<T>, line: Line<T>, rest: Bytes, allowBadLine: bool)
    requires Lawful(c) && EncodeLine(c, line).Some? && line != Raw([])
    ensures var raws := ScanLines(EncodeLine(c, line).value + rest);
            if Stable(c, line, allowBadLine)
            then raws != [] && raws[1..] == ScanLines(rest) && DecodeLine(c, raws[0], allowBadLine) == Some(line)
            else raws == [] || DecodeLine(c, raws[0], allowBadLine) != Some(line)
  {
    var text := Text(c, line);
    var data := text + ['\n'] + rest;
    assert EncodeLine(c, line).value + rest == data;
    if line.Parsed? {
      NewlineInJoin(c.encode(line.entry).value);
      RowRoundTrip(c, line.entry, allowBadLine);
    }
    if '\n' in text {
      ScanNoNewline(data);
      if ScanLines(data) != [] && DecodeLine(c, ScanLines(data)[0], allowBadLine) == Some(line) {
        ReadLine(c, ScanLines(data)[0], line, allowBadLine);
      }
    } else {
      ScanFirst(text, rest);
      if EndsWithCr(text) {
        CrChangesLine(c, line, allowBadLine);
      }
    }
  }

  ghost predicate AllStable<T>(c: Codec<T>, lines: seq<Line<T>>, allowBadLine: bool) {
    forall i :: 0 <= i < |lines| && lines[i] != Raw([]) ==> Stable(c, lines[i], allowBadLine)
  }

  lemma AllStableCons<T>(c: Codec<T>, lines: seq<Line<T>>, allowBadLine: bool)
    requires lines != []
    ensures AllStable(c, lines, allowBadLine) <==>
            (lines[0] == Raw([]) || Stable(c, lines[0], allowBadLine)) && AllStable(c, lines[1..], allowBadLine)
  {
    assert forall i :: 0 < i < |lines| ==> lines[i] == lines[1..][i - 1];
    assert forall i :: 0 <= i < |lines| - 1 ==> lines[1..][i] == lines[i + 1];
  }

  /** MAIN: a list of lines comes back from its own file, without its empty lines, exactly when every other
      line is stable. */
  lemma {:induction false} FileRoundTrip<T(!new)>(c: Codec<T>, lines: seq<Line<T>>, allowBadLine: bool)
    requires Lawful(c)
    ensures EncodeFile(c, lines).ok && DecodeFile(c, EncodeFile(c, lines).bytes, allowBadLine) == Some(NonEmpty(lines))
       <==> AllStable(c, lines, allowBadLine)
  {
    if lines != [] {
      FileRoundTrip(c, lines[1..], allowBadLine);
      AllStableCons(c, lines, allowBadLine);
      var rest := EncodeFile(c, lines[1..]).bytes;
      if lines[0] == Raw([]) {
        assert EncodeFile(c, lines).bytes == rest && NonEmpty(lines) == NonEmpty(lines[1..]);
      } else if EncodeLine(c, lines[0]).Some? {
        FirstLine(c, lines[0], rest, allowBadLine);
        var raws := ScanLines(EncodeFile(c, lines).bytes);
        if raws != [] && DecodeLines(c, raws, allowBadLine) == Some(NonEmpty(lines)) {
          assert NonEmpty(lines)[0] == lines[0] && NonEmpty(lines)[1..] == NonEmpty(lines[1..]);
        }
      }
    }
  }

  /** A file that was read can be written; whether its lines survive that depends on no more than a carriage
      return at the end of one and on its length. */
  lemma {:induction false} ReadFile<T(!new)>(c: Codec<T>, raws: seq<Bytes>, lines: seq<Line<T>>, allowBadLine: bool)
    requires Lawful(c) && (forall i :: 0 <= i < |raws| ==> '\n' !in raws[i])
    requires DecodeLines(c, raws, allowBadLine) == Some(lines)
    ensures |lines| == |raws| && EncodeFile(c, lines).ok
    ensures forall i :: 0 <= i < |lines| ==> SurvivesReading(c, lines[i], allowBadLine)
  {
    if raws != [] {
      assert forall i :: 0 <= i < |raws| - 1 ==> raws[1..][i] == raws[i + 1];
      ReadLine(c, raws[0], lines[0], allowBadLine);
      ReadFile(c, raws[1..], lines[1..], allowBadLine);
      assert forall i :: 0 < i < |lines| ==> lines[i] == lines[1..][i - 1];
    }
  }

  ghost predicate SurvivesReading<T>(c: Codec<T>, line: Line<T>, allowBadLine: bool) {
    && EncodeLine(c, line).Some?
    && (Stable(c, line, allowBadLine) <==> !EndsWithCr(Text(c, line)) && |Text(c, line)| < MAX_TOKEN)
  }
}
