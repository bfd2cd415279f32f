/** The edits that `Ensure` and `deleteRef` make to the members of groups, entry by entry. */
module Regrouping {
  import opened Bytes
  import opened ColonCodec
  import opened UnixRows
  import opened UserDb
  import opened UserDbLaws
  import opened Entries

  /** The entries of a list at some positions. */
  ghost predicate At<T>(lines: Lines<T>, entries: seq<Entry<T>>, at: seq<nat>) {
    |entries| == |at| && forall j :: 0 <= j < |at| ==> at[j] < |lines| && lines[at[j]] == Parsed(entries[j])
  }

  /** Writing to one entry changes one row. */
  method SetRow<T>(e: Entry<T>, row: T, ghost lines: Lines<T>, ghost rows: seq<Line<T>>, ghost at: nat)
    requires at < |lines| && lines[at] == Parsed(e) && Distinct(lines) && Rows(lines) == rows
    modifies e
    ensures e.row == row && Rows(lines) == rows[at := Parsed(row)]
  {
    e.row := row;
    assert forall i :: 0 <= i < |lines| && i != at && lines[i].Parsed? ==> lines[i].entry != e;
  }

  // ------------------------------------------------------------ a new user joins

  /** The loop that appends a new user to its groups. */
  method JoinGroups(groups: Lines<GroupRow>, refs: seq<Entry<GroupRow>>, name: Bytes, ghost lines: seq<Line<GroupRow>>,
                    ghost at: seq<nat>)
    requires Distinct(groups) && Rows(groups) == lines && At(groups, refs, at)
    modifies Objects(groups)
    ensures Rows(groups) == JoinedGroups(lines, at, name)
  {
    assert forall i :: 0 <= i < |lines| && lines[i].Parsed? ==>
             lines[i].entry.userNames + Times(name, 0) == lines[i].entry.userNames;
    for j := 0 to |refs|
      invariant Rows(groups) == JoinedGroups(lines, at[..j], name)
    {
      assert refs[j] in Objects(groups) by { assert groups[at[j]].entry == refs[j]; }
      SetRow(refs[j], refs[j].row.(userNames := refs[j].row.userNames + [name]), groups, Rows(groups), at[j]);
      JoinedSnoc(lines, at[..j + 1], name);
      assert at[..j + 1][..j] == at[..j];
    }
    assert at[..|refs|] == at;
  }

  lemma JoinedSnoc(lines: seq<Line<GroupRow>>, at: seq<nat>, name: Bytes)
    requires at != [] && IsRow(lines, at[|at| - 1])
    ensures var p, front := at[|at| - 1], JoinedGroups(lines, at[..|at| - 1], name);
            front[p].Parsed? &&
            JoinedGroups(lines, at, name)
                == front[p := Parsed(front[p].entry.(userNames := front[p].entry.userNames + [name]))]
  {
    var p, front := at[|at| - 1], at[..|at| - 1];
    var n := Occurs(front, p);
    var names := lines[p].entry.userNames;
    assert (names + Times(name, n)) + [name] == names + Times(name, n + 1);
  }

  // ------------------------------------------------------------- a user leaves

  /** Rows of which some have lost a member. */
  ghost function RemovedFrom(groups: Lines<GroupRow>, lines: seq<Line<GroupRow>>, es: set<Entry<GroupRow>>,
                             name: Bytes): seq<Line<GroupRow>>
    requires Matches(groups, lines)
  {
    seq(|lines|, i requires 0 <= i < |lines| =>
      if lines[i].Parsed? && groups[i].entry in es
      then Parsed(lines[i].entry.(userNames := Without(lines[i].entry.userNames, name)))
      else lines[i])
  }

  /** `removeUserName` on one entry, whether or not it has been done before. */
  method RemoveUserName(groups: Lines<GroupRow>, e: Entry<GroupRow>, name: Bytes, ghost lines: seq<Line<GroupRow>>,
                        ghost done: set<Entry<GroupRow>>)
    requires Distinct(groups) && Matches(groups, lines) && Rows(groups) == RemovedFrom(groups, lines, done, name)
    requires Parsed(e) in groups
    modifies e
    ensures Rows(groups) == RemovedFrom(groups, lines, done + {e}, name)
  {
    ghost var at :| 0 <= at < |groups| && groups[at] == Parsed(e);
    SetRow(e, e.row.(userNames := Without(e.row.userNames, name)), groups, Rows(groups), at);
    WithoutTwice(lines[at].entry.userNames, name, name);
    assert forall i :: 0 <= i < |groups| && i != at && groups[i].Parsed? ==> groups[i].entry != e;
  }

  /** The loops that take a user out of some groups, in whatever order. */
  method RemoveFromEach(groups: Lines<GroupRow>, es: set<Entry<GroupRow>>, name: Bytes,
                        ghost lines: seq<Line<GroupRow>>)
    requires Distinct(groups) && Rows(groups) == lines && forall e :: e in es ==> Parsed(e) in groups
    modifies es
    ensures Rows(groups) == RemovedFrom(groups, lines, es, name)
  {
    var todo := es;
    while todo != {}
      invariant todo <= es && Rows(groups) == RemovedFrom(groups, lines, es - todo, name)
    {
      var e :| e in todo;
      RemoveUserName(groups, e, name, lines, es - todo);
      assert es - todo + {e} == es - (todo - {e});
      todo := todo - {e};
    }
    assert es - {} == es;
  }

  // ------------------------------------------- the entries that list a user

  /** The positions behind the memberships of a user. */
  ghost function Positions(counts: seq<nat>): seq<nat> {
    if counts == [] then []
    else
      var n: nat := |counts| - 1;
      Positions(counts[..n]) + Times(n, counts[n])
  }

  lemma {:induction false} PositionsAre(counts: seq<nat>)
    ensures var pos := Positions(counts);
            && (forall j :: 0 <= j < |pos| ==> pos[j] < |counts| && counts[pos[j]] > 0)
            && (forall j, k :: 0 <= j < k < |pos| ==> pos[j] <= pos[k])
            && (forall i :: 0 <= i < |counts| && counts[i] > 0 ==> i in pos)
  {
    if counts != [] {
      var n: nat := |counts| - 1;
      var front := Positions(counts[..n]);
      PositionsAre(counts[..n]);
      assert counts[n] > 0 ==> Times(n, counts[n])[0] == n;
      forall i | 0 <= i < |counts| && counts[i] > 0 ensures i in Positions(counts) {
        assert i < n ==> counts[..n][i] > 0 && i in front;
      }
    }
  }

  lemma {:induction false} MembershipsAt(groups: Lines<GroupRow>, counts: seq<nat>)
    requires |counts| == |groups| && forall i :: 0 <= i < |groups| && groups[i].Raw? ==> counts[i] == 0
    ensures At(groups, Memberships(groups, counts), Positions(counts))
  {
    if groups != [] {
      var n := |groups| - 1;
      MembershipsAt(groups[..n], counts[..n]);
      var es, pos := Memberships(groups[..n], counts[..n]), Positions(counts[..n]);
      if groups[n].Raw? {
        assert Times(n, counts[n]) == [];
        assert At(groups, es, pos);
      }
    }
  }

  /** The entries and the positions of the groups of a user, in the order of the file. */
  ghost predicate ListedAt(groups: Lines<GroupRow>, lines: seq<Line<GroupRow>>, user: Bytes, es: seq<Entry<GroupRow>>,
                           pos: seq<nat>) {
    && Matches(groups, lines) && At(groups, es, pos)
    && (forall j :: 0 <= j < |pos| ==> user in lines[pos[j]].entry.userNames)
    && (forall j, k :: 0 <= j < k < |pos| ==> pos[j] <= pos[k])
    && (forall i :: 0 <= i < |lines| && lines[i].Parsed? && user in lines[i].entry.userNames ==> i in pos)
  }

  lemma MembersListed(groups: Lines<GroupRow>, lines: seq<Line<GroupRow>>, user: Bytes)
    requires Matches(groups, lines)
    ensures ListedAt(groups, lines, user, MemberEntries(groups, lines, user), Positions(Counts(lines, user)))
  {
    var counts := Counts(lines, user);
    PositionsAre(counts);
    MembershipsAt(groups, counts);
    forall i | 0 <= i < |lines| && lines[i].Parsed? ensures counts[i] > 0 <==> user in lines[i].entry.userNames {
      CountPositive(lines[i].entry.userNames, user);
    }
  }

  lemma {:induction false} WithoutAbsent(names: seq<Bytes>, name: Bytes)
    requires name !in names
    ensures Without(names, name) == names
  {
    if names != [] {
      WithoutAbsent(names[1..], name);
    }
  }

  /** `removeUserName` on all groups of a user. */
  method LeaveGroups(groups: Lines<GroupRow>, es: seq<Entry<GroupRow>>, name: Bytes, ghost lines: seq<Line<GroupRow>>)
    requires Distinct(groups) && Rows(groups) == lines && es == MemberEntries(groups, lines, name)
    modifies Objects(groups)
    ensures Rows(groups) == LeftGroups(lines, name)
  {
    ghost var pos := Positions(Counts(lines, name));
    MembersListed(groups, lines, name);
    var todo := set e | e in es;
    ListedEntries(groups, lines, name, es, pos);
    RemoveFromEach(groups, todo, name, lines);
    LeftAll(groups, lines, name, es, pos);
  }

  lemma ListedEntries(groups: Lines<GroupRow>, lines: seq<Line<GroupRow>>, name: Bytes, es: seq<Entry<GroupRow>>,
                      pos: seq<nat>)
    requires ListedAt(groups, lines, name, es, pos)
    ensures forall e :: e in es ==> Parsed(e) in groups && e in Objects(groups)
  {
    forall e | e in es ensures Parsed(e) in groups && e in Objects(groups) {
      var j :| 0 <= j < |es| && es[j] == e;
      assert groups[pos[j]] == Parsed(e);
    }
  }

  lemma LeftAll(groups: Lines<GroupRow>, lines: seq<Line<GroupRow>>, name: Bytes, es: seq<Entry<GroupRow>>,
                pos: seq<nat>)
    requires ListedAt(groups, lines, name, es, pos)
    ensures RemovedFrom(groups, lines, (set e | e in es), name) == LeftGroups(lines, name)
  {
    forall i | 0 <= i < |lines| && lines[i].Parsed?
      ensures RemovedFrom(groups, lines, (set e | e in es), name)[i] == LeftGroups(lines, name)[i]
    {
      if name in lines[i].entry.userNames {
        var j :| 0 <= j < |pos| && pos[j] == i;
        assert es[j] == groups[i].entry;
      } else {
        WithoutAbsent(lines[i].entry.userNames, name);
      }
    }
  }

  // -------------------------------------------------- groups collected by gid

  /** The groups at some positions by their gid, of those with the same gid the last one. */
  ghost predicate ByGid(m: map<uint32, Entry<GroupRow>>, groups: Lines<GroupRow>, lines: seq<Line<GroupRow>>,
                        pos: seq<nat>) {
    && Matches(groups, lines) && AllRows(lines, pos)
    && (forall j :: 0 <= j < |pos| ==> lines[pos[j]].entry.gid in m)
    && (forall gid :: gid in m ==> LastWithGid(groups, lines, pos, gid, m[gid]))
  }

  ghost predicate LastWithGid(groups: Lines<GroupRow>, lines: seq<Line<GroupRow>>, pos: seq<nat>, gid: uint32,
                              e: Entry<GroupRow>)
    requires Matches(groups, lines) && AllRows(lines, pos)
  {
    exists j :: 0 <= j < |pos| && lines[pos[j]].entry.gid == gid && groups[pos[j]].entry == e
      && forall k :: j < k < |pos| ==> lines[pos[k]].entry.gid != gid
  }

  method CollectByGid(groups: Lines<GroupRow>, es: seq<Entry<GroupRow>>, ghost lines: seq<Line<GroupRow>>,
                      ghost pos: seq<nat>)
    returns (m: map<uint32, Entry<GroupRow>>)
    requires Rows(groups) == lines && At(groups, es, pos)
    ensures ByGid(m, groups, lines, pos)
  {
    m := map[];
    for j := 0 to |es|
      invariant ByGid(m, groups, lines, pos[..j])
    {
      ByGidStep(m, groups, lines, pos, j);
      m := m[es[j].row.gid := es[j]];
    }
    assert pos[..|es|] == pos;
  }

  lemma ByGidStep(m: map<uint32, Entry<GroupRow>>, groups: Lines<GroupRow>, lines: seq<Line<GroupRow>>, pos: seq<nat>,
                  j: nat)
    requires j < |pos| && ByGid(m, groups, lines, pos[..j]) && IsRow(lines, pos[j])
    ensures ByGid(m[lines[pos[j]].entry.gid := groups[pos[j]].entry], groups, lines, pos[..j + 1])
  {
    var now := lines[pos[j]].entry.gid;
    var after := m[now := groups[pos[j]].entry];
    forall gid | gid in after ensures LastWithGid(groups, lines, pos[..j + 1], gid, after[gid]) {
      if gid == now {
        assert pos[..j + 1][j] == pos[j];
      } else {
        var i :| 0 <= i < j && lines[pos[..j][i]].entry.gid == gid && groups[pos[..j][i]].entry == m[gid]
          && forall k :: i < k < j ==> lines[pos[..j][k]].entry.gid != gid;
        assert pos[..j + 1][i] == pos[..j][i];
      }
    }
  }

  /** What is left of the collected groups after those with a wanted gid are taken out: the stale ones. */
  lemma StaleLeft(m: map<uint32, Entry<GroupRow>>, rest: map<uint32, Entry<GroupRow>>, groups: Lines<GroupRow>,
                  lines: seq<Line<GroupRow>>, name: Bytes, es: seq<Entry<GroupRow>>, pos: seq<nat>, at: seq<nat>)
    requires Distinct(groups) && ListedAt(groups, lines, name, es, pos) && ByGid(m, groups, lines, pos)
    requires AllRows(lines, at)
    requires forall gid :: Find(rest, gid) == if HasGidOf(lines, at, gid) then None else Find(m, gid)
    ensures forall e :: e in rest.Values ==> EntryIsStale(groups, lines, name, at, e)
    ensures forall i :: 0 <= i < |lines| && lines[i].Parsed? && IsStale(lines, at, name, i) ==>
              groups[i].entry in rest.Values
  {
    forall gid | gid in rest ensures EntryIsStale(groups, lines, name, at, rest[gid]) {
      assert Find(rest, gid) == Find(m, gid) && !HasGidOf(lines, at, gid);
      var _ := LastIsStale(m, groups, lines, name, es, pos, at, gid);
    }
    forall i | 0 <= i < |lines| && lines[i].Parsed? && IsStale(lines, at, name, i)
      ensures groups[i].entry in rest.Values
    {
      StaleIsLeft(m, groups, lines, name, es, pos, at, i);
      assert Find(rest, lines[i].entry.gid) == Find(m, lines[i].entry.gid);
    }
  }

  ghost predicate EntryIsStale(groups: Lines<GroupRow>, lines: seq<Line<GroupRow>>, name: Bytes, at: seq<nat>,
                               e: Entry<GroupRow>) {
    exists i :: 0 <= i < |groups| && groups[i] == Parsed(e) && IsStale(lines, at, name, i)
  }

  lemma StaleIsLeft(m: map<uint32, Entry<GroupRow>>, groups: Lines<GroupRow>, lines: seq<Line<GroupRow>>, name: Bytes,
                    es: seq<Entry<GroupRow>>, pos: seq<nat>, at: seq<nat>, i: nat)
    requires ListedAt(groups, lines, name, es, pos) && ByGid(m, groups, lines, pos)
    requires IsRow(lines, i) && IsStale(lines, at, name, i)
    ensures Find(m, lines[i].entry.gid) == Some(groups[i].entry)
  {
    var j :| 0 <= j < |pos| && pos[j] == i;
    var p := LastIsStale(m, groups, lines, name, es, pos, at, lines[i].entry.gid);
    OneStale(lines, at, name, i, p);
  }

  lemma OneStale(lines: seq<Line<GroupRow>>, at: seq<nat>, name: Bytes, i: nat, p: nat)
    requires IsRow(lines, i) && IsStale(lines, at, name, i) && IsRow(lines, p) && IsStale(lines, at, name, p)
    requires lines[i].entry.gid == lines[p].entry.gid
    ensures i == p
  {
  }

  lemma LastListed(lines: seq<Line<GroupRow>>, pos: seq<nat>, j: nat, q: nat)
    requires AllRows(lines, pos) && (forall j, k :: 0 <= j < k < |pos| ==> pos[j] <= pos[k])
    requires j < |pos| && forall k :: j < k < |pos| ==> lines[pos[k]].entry.gid != lines[pos[j]].entry.gid
    requires pos[j] < q < |lines| && lines[q].Parsed? && lines[q].entry.gid == lines[pos[j]].entry.gid
    ensures q !in pos
  {
    forall k | 0 <= k < |pos| ensures pos[k] != q {
      if k > j {
        assert lines[pos[k]].entry.gid != lines[q].entry.gid;
      }
    }
  }

  lemma LastIsStale(m: map<uint32, Entry<GroupRow>>, groups: Lines<GroupRow>, lines: seq<Line<GroupRow>>, name: Bytes,
                    es: seq<Entry<GroupRow>>, pos: seq<nat>, at: seq<nat>, gid: uint32) returns (p: nat)
    requires ListedAt(groups, lines, name, es, pos) && ByGid(m, groups, lines, pos)
    requires gid in m && !HasGidOf(lines, at, gid)
    ensures IsRow(lines, p) && groups[p] == Parsed(m[gid]) && lines[p].entry.gid == gid && IsStale(lines, at, name, p)
  {
    assert LastWithGid(groups, lines, pos, gid, m[gid]);
    var j :| 0 <= j < |pos| && lines[pos[j]].entry.gid == gid && groups[pos[j]].entry == m[gid]
      && forall k :: j < k < |pos| ==> lines[pos[k]].entry.gid != gid;
    p := pos[j];
    forall q | p < q < |lines| && lines[q].Parsed? && lines[q].entry.gid == gid
      ensures name !in lines[q].entry.userNames
    {
      LastListed(lines, pos, j, q);
    }
  }

  // ------------------------------------------------ a user changes its groups

  /** Rows of which some have got a member. */
  ghost function AddedTo(lines: seq<Line<GroupRow>>, at: seq<nat>, name: Bytes): seq<Line<GroupRow>> {
    seq(|lines|, i requires 0 <= i < |lines| =>
      if lines[i].Parsed? && i in at
      then Parsed(lines[i].entry.(userNames := WithUnique(lines[i].entry.userNames, name)))
      else lines[i])
  }

  lemma AddedStep(lines: seq<Line<GroupRow>>, at: seq<nat>, j: nat, name: Bytes)
    requires j < |at| && IsRow(lines, at[j])
    ensures var before := AddedTo(lines, at[..j], name);
            before[at[j]].Parsed? &&
            AddedTo(lines, at[..j + 1], name) ==
              before[at[j] := Parsed(before[at[j]].entry.(userNames := WithUnique(before[at[j]].entry.userNames,
                                                                                  name)))]
  {
    assert at[..j + 1] == at[..j] + [at[j]];
  }

  /** The loop over the wanted groups: their gids are no longer to be handled, and they get the user. */
  method AddToWanted(groups: Lines<GroupRow>, refs: seq<Entry<GroupRow>>, name: Bytes, m: map<uint32, Entry<GroupRow>>,
                     ghost lines: seq<Line<GroupRow>>, ghost at: seq<nat>)
    returns (rest: map<uint32, Entry<GroupRow>>)
    requires Distinct(groups) && Rows(groups) == lines && At(groups, refs, at)
    modifies Objects(groups)
    ensures Rows(groups) == AddedTo(lines, at, name)
    ensures forall gid :: Find(rest, gid) == if HasGidOf(lines, at, gid) then None else Find(m, gid)
  {
    rest := m;
    for j := 0 to |refs|
      invariant Rows(groups) == AddedTo(lines, at[..j], name)
      invariant forall gid :: Find(rest, gid) == if HasGidOf(lines, at[..j], gid) then None else Find(m, gid)
    {
      assert groups[at[j]].entry == refs[j] && refs[j] in Objects(groups);
      assert Rows(groups)[at[j]] == Parsed(refs[j].row);
      var gid := refs[j].row.gid;
      assert gid == lines[at[j]].entry.gid;
      HasGidSnoc(lines, at, j);
      FindOther(rest, gid);
      rest := rest - {gid};
      SetRow(refs[j], refs[j].row.(userNames := WithUnique(refs[j].row.userNames, name)), groups, Rows(groups), at[j]);
      AddedStep(lines, at, j, name);
    }
    assert at[..|refs|] == at;
  }

  lemma FindOther<K, V>(m: map<K, V>, gone: K)
    ensures forall k :: Find(m - {gone}, k) == if k == gone then None else Find(m, k)
  {
  }

  lemma HasGidSnoc(lines: seq<Line<GroupRow>>, at: seq<nat>, j: nat)
    requires j < |at| && IsRow(lines, at[j])
    ensures forall gid ::
              HasGidOf(lines, at[..j + 1], gid) <==> HasGidOf(lines, at[..j], gid) || gid == lines[at[j]].entry.gid
  {
    assert at[..j + 1][j] == at[j];
    assert forall i :: 0 <= i < j ==> at[..j + 1][i] == at[..j][i];
  }

  /** From the member index to the edited groups: how `Ensure` regroups an existing user. */
  method Regroup(groups: Lines<GroupRow>, refs: seq<Entry<GroupRow>>, byUser: map<Bytes, seq<Entry<GroupRow>>>,
                 former: Bytes,
                 name: Bytes, ghost lines: seq<Line<GroupRow>>, ghost at: seq<nat>)
    requires Distinct(groups) && Rows(groups) == lines && At(groups, refs, at)
    requires IsMemberIndex(byUser, groups, lines)
    modifies Objects(groups)
    ensures Rows(groups) == RegroupedGroups(lines, at, former, name)
  {
    var es := GroupsOf(byUser, groups, lines, name);
    ghost var pos := Positions(Counts(lines, name));
    MembersListed(groups, lines, name);
    var m := CollectByGid(groups, es, lines, pos);
    ghost var left := lines;
    if former != name {
      left := LeftGroups(lines, former);
      var formerly := GroupsOf(byUser, groups, lines, former);
      LeaveGroups(groups, formerly, former, lines);
    }
    var rest := AddToWanted(groups, refs, name, m, left, at);
    assert forall gid :: HasGidOf(left, at, gid) <==> HasGidOf(lines, at, gid);
    StaleLeft(m, rest, groups, lines, name, es, pos, at);
    RemoveFromEach(groups, rest.Values, name, AddedTo(left, at, name));
    RegroupedIs(groups, lines, rest.Values, at, former, name);
  }

  method GroupsOf(byUser: map<Bytes, seq<Entry<GroupRow>>>, ghost groups: Lines<GroupRow>,
                  ghost lines: seq<Line<GroupRow>>, user: Bytes)
    returns (es: seq<Entry<GroupRow>>)
    requires IsMemberIndex(byUser, groups, lines)
    ensures es == MemberEntries(groups, lines, user)
  {
    assert Find(byUser, user) == IfAny(MemberEntries(groups, lines, user));
    es := if user in byUser then byUser[user] else [];
  }

  lemma RegroupedIs(groups: Lines<GroupRow>, lines: seq<Line<GroupRow>>, es: set<Entry<GroupRow>>, at: seq<nat>,
                    former: Bytes, name: Bytes)
    requires Matches(groups, lines) && AllRows(lines, at)
    requires Distinct(groups) && forall e :: e in es ==> EntryIsStale(groups, lines, name, at, e)
    requires forall i :: 0 <= i < |lines| && lines[i].Parsed? && IsStale(lines, at, name, i) ==> groups[i].entry in es
    ensures var left := if former == name then lines else LeftGroups(lines, former);
            RemovedFrom(groups, AddedTo(left, at, name), es, name) == RegroupedGroups(lines, at, former, name)
  {
    forall i | 0 <= i < |lines| && lines[i].Parsed? && i in at ensures !IsStale(lines, at, name, i) {
      var j :| 0 <= j < |at| && at[j] == i;
      assert HasGidOf(lines, at, lines[i].entry.gid);
    }
  }
}
