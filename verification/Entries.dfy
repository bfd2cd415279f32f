/** Lists of lines whose rows live on the heap, so that an index can share them with the list. */
module Entries {
  import opened Bytes
  import opened ColonCodec
  import opened UnixRows
  import opened UserDb
  import opened UserDbLaws

  /** The source's pointer to a row. */
  class Entry<T> {
    var row: T

    constructor (row: T)
      ensures this.row == row
    {
      this.row := row;
    }
  }

  type Lines<T> = seq<Line<Entry<T>>>

  ghost function Objects<T>(lines: Lines<T>): set<Entry<T>> {
    set i | 0 <= i < |lines| && lines[i].Parsed? :: lines[i].entry
  }

  ghost predicate Distinct<T>(lines: Lines<T>) {
    forall i, j :: 0 <= i < j < |lines| && lines[i].Parsed? && lines[j].Parsed? ==> lines[i].entry != lines[j].entry
  }

  /** The lines with the rows as they are now. */
  ghost function Rows<T>(lines: Lines<T>): (rows: seq<Line<T>>)
    reads Objects(lines)
    ensures |rows| == |lines|
    ensures forall i :: 0 <= i < |lines| ==>
              rows[i] == if lines[i].Parsed? then Parsed(lines[i].entry.row) else Raw(lines[i].raw)
  {
    seq(|lines|, i requires 0 <= i < |lines| reads Objects(lines) =>
      if lines[i].Parsed? then Parsed(lines[i].entry.row) else Raw(lines[i].raw))
  }

  lemma RowsAppend<T>(lines: Lines<T>, line: Line<Entry<T>>)
    ensures Rows(lines + [line]) == Rows(lines) + [if line.Parsed? then Parsed(line.entry.row) else Raw(line.raw)]
    ensures Objects(lines + [line]) == Objects(lines) + if line.Parsed? then {line.entry} else {}
  {
    var longer := lines + [line];
    assert longer[..|lines|] == lines;
    forall e ensures e in Objects(longer) <==> e in Objects(lines) || (line.Parsed? && e == line.entry) {
      if e in Objects(lines) {
        var i :| 0 <= i < |lines| && lines[i].Parsed? && lines[i].entry == e;
        assert longer[i].Parsed? && longer[i].entry == e;
      }
      if line.Parsed? && e == line.entry {
        assert longer[|lines|].Parsed? && longer[|lines|].entry == e;
      }
    }
  }

  // What follows takes the rows as they are at some moment as a second argument, so that it does not depend on the
  // heap.

  ghost predicate Matches<T>(lines: Lines<T>, rows: seq<Line<T>>) {
    |lines| == |rows| && forall i :: 0 <= i < |lines| ==> (lines[i].Parsed? <==> rows[i].Parsed?)
  }

  /** The last entry with a key. */
  ghost function LastEntry<T, K>(lines: Lines<T>, rows: seq<Line<T>>, key: T -> K, k: K): Option<Entry<T>>
    requires Matches(lines, rows)
  {
    var ix := IndexBy(rows, key);
    if k in ix then Some(lines[ix[k]].entry) else None
  }

  lemma LastEntryAppend<T, K>(lines: Lines<T>, rows: seq<Line<T>>, line: Line<Entry<T>>, row: Line<T>, key: T -> K,
                              k: K)
    requires Matches(lines, rows) && (line.Parsed? <==> row.Parsed?)
    ensures LastEntry(lines + [line], rows + [row], key, k) ==
            if line.Parsed? && key(row.entry) == k then Some(line.entry) else LastEntry(lines, rows, key, k)
  {
    assert (rows + [row])[..|rows|] == rows;
  }

  /** An index by a key: it has the last entry with each key. */
  ghost predicate IsIndex<T, K(!new)>(m: map<K, Entry<T>>, lines: Lines<T>, rows: seq<Line<T>>, key: T -> K) {
    Matches(lines, rows) && forall k :: Find(m, k) == LastEntry(lines, rows, key, k)
  }

  lemma IsIndexAppend<T, K(!new)>(m: map<K, Entry<T>>, lines: Lines<T>, rows: seq<Line<T>>, line: Line<Entry<T>>,
                                  row: Line<T>, key: T -> K)
    requires IsIndex(m, lines, rows, key) && (line.Parsed? <==> row.Parsed?)
    ensures IsIndex(if line.Parsed? then m[key(row.entry) := line.entry] else m, lines + [line], rows + [row], key)
  {
    forall k { LastEntryAppend(lines, rows, line, row, key, k); }
  }

  /** The entries of the groups of a user, from how often each line lists the user. */
  ghost function Memberships(groups: Lines<GroupRow>, counts: seq<nat>): seq<Entry<GroupRow>>
    requires |counts| == |groups|
  {
    if groups == [] then []
    else
      var n := |groups| - 1;
      Memberships(groups[..n], counts[..n]) + if groups[n].Parsed? then Times(groups[n].entry, counts[n]) else []
  }

  ghost function MemberEntries(groups: Lines<GroupRow>, rows: seq<Line<GroupRow>>, user: Bytes): seq<Entry<GroupRow>>
    requires Matches(groups, rows)
  {
    Memberships(groups, Counts(rows, user))
  }

  ghost function IfAny<T>(s: seq<T>): Option<seq<T>> { if s == [] then None else Some(s) }

  /** The groups of every user: those that list it, in the order of the file. */
  ghost predicate IsMemberIndex(m: map<Bytes, seq<Entry<GroupRow>>>, groups: Lines<GroupRow>,
                                rows: seq<Line<GroupRow>>) {
    Matches(groups, rows) && forall u :: Find(m, u) == IfAny(MemberEntries(groups, rows, u))
  }

  // ----------------------------------------------------- reading and writing

  ghost function Prepend<T>(done: seq<Line<T>>, rest: Option<seq<Line<T>>>): Option<seq<Line<T>>> {
    match rest case Some(lines) => Some(done + lines) case None => None
  }

  /** `etcColonEntries.decode`. */
  method DecodeEntries<T>(c: Codec<T>, data: Bytes, allowBadLine: bool) returns (r: Option<seq<Line<T>>>)
    ensures r == DecodeFile(c, data, allowBadLine)
  {
    var bufs: seq<Line<T>> := [];
    var rest := data;
    assert DecodeFile(c, data, allowBadLine).Some? ==>
             bufs + DecodeFile(c, data, allowBadLine).value == DecodeFile(c, data, allowBadLine).value;
    while Scan(rest).Some?
      invariant DecodeFile(c, data, allowBadLine) == Prepend(bufs, DecodeFile(c, rest, allowBadLine))
      decreases |rest|
    {
      var raw, after := Scan(rest).value.0, Scan(rest).value.1;
      var entry := DecodeLine(c, raw, allowBadLine);
      assert ScanLines(rest)[0] == raw && ScanLines(rest)[1..] == ScanLines(after);
      if entry.None? {
        return None;
      }
      if DecodeFile(c, after, allowBadLine).Some? {
        assert bufs + ([entry.value] + DecodeFile(c, after, allowBadLine).value)
            == (bufs + [entry.value]) + DecodeFile(c, after, allowBadLine).value;
      }
      bufs := bufs + [entry.value];
      rest := after;
    }
    assert bufs + [] == bufs;
    return Some(bufs);
  }

  /** `etcColonEntries.encode` on an emptied file. */
  method EncodeEntries<T>(c: Codec<T>, lines: Lines<T>) returns (w: Written)
    ensures w == EncodeFile(c, Rows(lines))
  {
    ghost var rows := Rows(lines);
    var bytes: Bytes := [];
    for i := 0 to |lines|
      invariant EncodeFile(c, rows) == var rest := EncodeFile(c, rows[i..]); Written(bytes + rest.bytes, rest.ok)
    {
      var line := if lines[i].Parsed? then Parsed(lines[i].entry.row) else Raw(lines[i].raw);
      assert rows[i..][0] == line && rows[i..][1..] == rows[i + 1..];
      var text := EncodeLine(c, line);
      if text.None? {
        return Written(bytes, false);
      }
      bytes := bytes + text.value;
    }
    return Written(bytes, true);
  }

  /** New entries for rows that have been read. */
  method Allocate<T>(rows: seq<Line<T>>) returns (lines: Lines<T>)
    ensures Rows(lines) == rows && Distinct(lines) && fresh(Objects(lines))
  {
    lines := [];
    for i := 0 to |rows|
      invariant |lines| == i && Rows(lines) == rows[..i]
      invariant Distinct(lines) && fresh(Objects(lines))
    {
      var line := AllocateLine(rows[i]);
      RowsAppend(lines, line);
      forall j | 0 <= j < i && lines[j].Parsed? && line.Parsed? ensures lines[j].entry != line.entry {
        assert lines[j].entry in Objects(lines);
      }
      assert rows[..i + 1] == rows[..i] + [rows[i]];
      lines := lines + [line];
    }
    assert rows[..|rows|] == rows;
  }

  method AllocateLine<T>(row: Line<T>) returns (line: Line<Entry<T>>)
    ensures row.Raw? ==> line == Raw(row.raw)
    ensures row.Parsed? ==> line.Parsed? && fresh(line.entry) && line.entry.row == row.entry
  {
    match row
    case Parsed(r) =>
      var entry := new Entry(r);
      line := Parsed(entry);
    case Raw(raw) =>
      line := Raw(raw);
  }

  // --------------------------------------------------------- dropping entries

  /** `slices.DeleteFunc` over the entries. */
  ghost function Keep<T>(lines: Lines<T>, rows: seq<Line<T>>, gone: T -> bool): Lines<T>
    requires Matches(lines, rows)
  {
    if lines == [] then []
    else
      var n := |lines| - 1;
      Keep(lines[..n], rows[..n], gone) + if rows[n].Parsed? && gone(rows[n].entry) then [] else [lines[n]]
  }

  method DeleteEntries<T>(lines: Lines<T>, gone: T -> bool) returns (kept: Lines<T>)
    ensures kept == Keep(lines, Rows(lines), gone)
  {
    ghost var rows := Rows(lines);
    kept := [];
    for i := 0 to |lines|
      invariant kept == Keep(lines[..i], rows[..i], gone)
    {
      assert lines[..i + 1][..i] == lines[..i] && rows[..i + 1][..i] == rows[..i];
      if !(lines[i].Parsed? && gone(lines[i].entry.row)) {
        kept := kept + [lines[i]];
      }
    }
    assert lines[..|lines|] == lines && rows[..|rows|] == rows;
  }

  /** Deleting entries deletes their rows. */
  lemma {:induction false} KeepRows<T>(lines: Lines<T>, rows: seq<Line<T>>, gone: T -> bool)
    requires Rows(lines) == rows
    ensures Rows(Keep(lines, rows, gone)) == Dropped(rows, gone)
  {
    if lines != [] {
      var n := |lines| - 1;
      var front, rfront := lines[..n], rows[..n];
      assert Rows(front) == rfront;
      KeepRows(front, rfront, gone);
      RowsAppend(Keep(front, rfront, gone), lines[n]);
      assert rows == rfront + [rows[n]];
      DroppedAppend(rfront, rows[n], gone);
    }
  }

  lemma {:induction false} KeepMembers<T>(lines: Lines<T>, rows: seq<Line<T>>, gone: T -> bool, l: Line<Entry<T>>)
    requires Matches(lines, rows)
    ensures l in Keep(lines, rows, gone) <==>
            exists i :: 0 <= i < |lines| && lines[i] == l && !(rows[i].Parsed? && gone(rows[i].entry))
  {
    if lines != [] {
      var n := |lines| - 1;
      KeepMembers(lines[..n], rows[..n], gone, l);
      assert forall i :: 0 <= i < n ==> lines[..n][i] == lines[i] && rows[..n][i] == rows[i];
    }
  }

  lemma KeepSnoc<T>(lines: Lines<T>, rows: seq<Line<T>>, gone: T -> bool)
    requires Matches(lines, rows) && lines != []
    ensures var n := |lines| - 1;
            var lastGone := rows[n].Parsed? && gone(rows[n].entry);
            var kept, dropped := Keep(lines[..n], rows[..n], gone), Dropped(rows[..n], gone);
            && Keep(lines, rows, gone) == (if lastGone then kept else kept + [lines[n]])
            && Dropped(rows, gone) == (if lastGone then dropped else dropped + [rows[n]])
  {
    var n := |lines| - 1;
    assert rows == rows[..n] + [rows[n]];
    DroppedAppend(rows[..n], rows[n], gone);
  }

  /** An entry that is not deleted stays the last one with its key; a key without an entry gets none. */
  lemma {:induction false} LastEntryKept<T, K>(lines: Lines<T>, rows: seq<Line<T>>, gone: T -> bool, key: T -> K, k: K)
    requires Matches(lines, rows)
    requires k in IndexBy(rows, key) ==> !gone(rows[IndexBy(rows, key)[k]].entry)
    ensures Matches(Keep(lines, rows, gone), Dropped(rows, gone))
    ensures LastEntry(Keep(lines, rows, gone), Dropped(rows, gone), key, k) == LastEntry(lines, rows, key, k)
  {
    KeepMatches(lines, rows, gone);
    if lines != [] {
      var n := |lines| - 1;
      var front, last, rfront, rlast := lines[..n], lines[n], rows[..n], rows[n];
      var kept, dropped := Keep(front, rfront, gone), Dropped(rfront, gone);
      KeepMatches(front, rfront, gone);
      KeepSnoc(lines, rows, gone);
      assert lines == front + [last] && rows == rfront + [rlast];
      LastEntryAppend(front, rfront, last, rlast, key, k);
      LastEntryAppend(kept, dropped, last, rlast, key, k);
      if !(last.Parsed? && key(rlast.entry) == k) {
        LastEntryKept(front, rfront, gone, key, k);
      }
    }
  }

  lemma {:induction false} KeepMatches<T>(lines: Lines<T>, rows: seq<Line<T>>, gone: T -> bool)
    requires Matches(lines, rows)
    ensures Matches(Keep(lines, rows, gone), Dropped(rows, gone))
  {
    if lines != [] {
      var n := |lines| - 1;
      KeepMatches(lines[..n], rows[..n], gone);
      assert rows == rows[..n] + [rows[n]];
      DroppedAppend(rows[..n], rows[n], gone);
    }
  }
}
