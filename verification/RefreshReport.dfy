/**
 * Storing definitions and conflicts of a report (crates/commands/src/lib.rs 2839-2892;
 * crates/catalog/src/refresh.rs 4-22, 104-154; crates/catalog/src/migrations/0001_initial.sql 31-51).
 */
module RefreshReport {
  import opened Common
  import opened ConflictGroups

  datatype DefinitionRow = DefinitionRow(id: string, canonicalName: string, hasConflict: bool)

  datatype GroupRow = GroupRow(id: string, definition: string, reason: string)

  datatype MemberRow = MemberRow(group: string, instance: string)

  /** The three tables that a refresh replaces. */
  datatype Stored = Stored(definitions: seq<DefinitionRow>, groups: seq<GroupRow>, members: seq<MemberRow>)

  function DefinitionRowFor(d: DefinitionSummary): DefinitionRow {
    DefinitionRow(d.id, d.canonicalName, d.hasConflict)
  }

  function DefinitionRows(definitions: seq<DefinitionSummary>): seq<DefinitionRow> {
    seq(|definitions|, i requires 0 <= i < |definitions| => DefinitionRowFor(definitions[i]))
  }

  function GroupRowFor(c: Conflict): GroupRow {
    GroupRow(ConflictId(c), c.bucket.definition, Reason(c.members))
  }

  function GroupRows(conflicts: seq<Conflict>): seq<GroupRow> {
    seq(|conflicts|, i requires 0 <= i < |conflicts| => GroupRowFor(conflicts[i]))
  }

  function MemberRowsOf(c: Conflict, n: nat): seq<MemberRow>
    requires n <= |c.members|
  {
    seq(n, i requires 0 <= i < n => MemberRow(ConflictId(c), c.members[i].id))
  }

  function MemberRows(conflicts: seq<Conflict>): seq<MemberRow> {
    if conflicts == [] then []
    else
      var c := conflicts[|conflicts| - 1];
      MemberRows(conflicts[..|conflicts| - 1]) + MemberRowsOf(c, |c.members|)
  }

  predicate HasGroup(groups: seq<GroupRow>, id: string) {
    exists k :: 0 <= k < |groups| && groups[k].id == id
  }

  predicate HasDefinition(definitions: seq<DefinitionRow>, id: string) {
    exists k :: 0 <= k < |definitions| && definitions[k].id == id
  }

  // ----- constraints ------------------------------------------------------------------------

  ghost predicate DistinctDefinitions(definitions: seq<DefinitionSummary>) {
    forall i, j :: 0 <= i < j < |definitions| ==>
      definitions[i].id != definitions[j].id && definitions[i].canonicalName != definitions[j].canonicalName
  }

  ghost predicate DistinctGroups(conflicts: seq<Conflict>) {
    forall i, j :: 0 <= i < j < |conflicts| ==> ConflictId(conflicts[i]) != ConflictId(conflicts[j])
  }

  ghost predicate DistinctMembers(members: seq<Instance>) {
    forall i, j :: 0 <= i < j < |members| ==> members[i].id != members[j].id
  }

  /** Primary keys, unique names and the reference of a group to its definition. */
  ghost predicate Admissible(definitions: seq<DefinitionSummary>, conflicts: seq<Conflict>) {
    && DistinctDefinitions(definitions) && DistinctGroups(conflicts)
    && (forall i :: 0 <= i < |conflicts| ==> DistinctMembers(conflicts[i].members))
    && (forall i :: 0 <= i < |conflicts| ==> HasSummary(definitions, conflicts[i].bucket.definition))
  }

  // ----- the refresh ------------------------------------------------------------------------

  class Tables {
    var definitions: seq<DefinitionRow>
    var groups: seq<GroupRow>
    var members: seq<MemberRow>

    ghost function Now(): Stored
      reads this
    {
      Stored(definitions, groups, members)
    }

    constructor ()
      ensures Now() == Stored([], [], [])
    {
      definitions, groups, members := [], [], [];
    }

    method InsertDefinition(row: DefinitionRow) returns (ok: bool)
      modifies this`definitions
      ensures ok <==> forall k :: 0 <= k < |old(definitions)| ==>
                        old(definitions)[k].id != row.id && old(definitions)[k].canonicalName != row.canonicalName
      ensures definitions == if ok then old(definitions) + [row] else old(definitions)
    {
      ok := forall k :: 0 <= k < |definitions| ==>
        definitions[k].id != row.id && definitions[k].canonicalName != row.canonicalName;
      if ok {
        definitions := definitions + [row];
      }
    }

    method InsertGroup(row: GroupRow) returns (ok: bool)
      modifies this`groups
      ensures ok <==> !HasGroup(old(groups), row.id) && HasDefinition(definitions, row.definition)
      ensures groups == if ok then old(groups) + [row] else old(groups)
    {
      ok := !HasGroup(groups, row.id) && HasDefinition(definitions, row.definition);
      if ok {
        groups := groups + [row];
      }
    }

    method InsertMember(row: MemberRow) returns (ok: bool)
      modifies this`members
      ensures ok <==> row !in old(members)
      ensures members == if ok then old(members) + [row] else old(members)
    {
      ok := row !in members;
      if ok {
        members := members + [row];
      }
    }

    method InsertDefinitions(summaries: seq<DefinitionSummary>) returns (ok: bool)
      requires definitions == []
      modifies this`definitions
      ensures ok <==> DistinctDefinitions(summaries)
      ensures ok ==> definitions == DefinitionRows(summaries)
    {
      for i := 0 to |summaries|
        invariant definitions == DefinitionRows(summaries[..i]) && DistinctDefinitions(summaries[..i])
      {
        NextDefinition(summaries, i);
        ok := InsertDefinition(DefinitionRowFor(summaries[i]));
        if !ok {
          return;
        }
      }
      assert summaries[..|summaries|] == summaries;
      ok := true;
    }

    /** The members of one group, which has none yet. */
    method InsertMembers(c: Conflict) returns (ok: bool)
      requires forall row :: row in members ==> row.group != ConflictId(c)
      modifies this`members
      ensures ok <==> DistinctMembers(c.members)
      ensures ok ==> members == old(members) + MemberRowsOf(c, |c.members|)
    {
      for k := 0 to |c.members|
        invariant members == old(members) + MemberRowsOf(c, k)
        invariant DistinctMembers(c.members[..k])
      {
        NextMember(old(members), c, k);
        ok := InsertMember(MemberRow(ConflictId(c), c.members[k].id));
        if !ok {
          DistinctPrefix(c.members, k + 1);
          return;
        }
      }
      assert c.members[..|c.members|] == c.members;
      ok := true;
    }

    method InsertConflicts(ghost summaries: seq<DefinitionSummary>, conflicts: seq<Conflict>) returns (ok: bool)
      requires definitions == DefinitionRows(summaries) && groups == [] && members == []
      modifies this`groups, this`members
      ensures ok <==> ConflictsAdmissible(summaries, conflicts)
      ensures ok ==> groups == GroupRows(conflicts) && members == MemberRows(conflicts)
    {
      for i := 0 to |conflicts|
        invariant groups == GroupRows(conflicts[..i]) && members == MemberRows(conflicts[..i])
        invariant ConflictsAdmissible(summaries, conflicts[..i])
      {
        NextConflict(summaries, conflicts, i);
        ok := InsertConflict(summaries, conflicts[..i], conflicts[i]);
        if !ok {
          return;
        }
      }
      assert conflicts[..|conflicts|] == conflicts;
      ok := true;
    }

    method InsertConflict(
      ghost summaries: seq<DefinitionSummary>, ghost earlier: seq<Conflict>, c: Conflict) returns (ok: bool)
      requires definitions == DefinitionRows(summaries) && groups == GroupRows(earlier) &&
               members == MemberRows(earlier)
      modifies this`groups, this`members
      ensures ok <==> FitsIn(summaries, earlier, c)
      ensures ok ==> groups == GroupRows(earlier + [c]) && members == MemberRows(earlier + [c])
    {
      DefinitionIsStored(summaries, c.bucket.definition);
      GroupIsStored(earlier, ConflictId(c));
      ok := InsertGroup(GroupRowFor(c));
      if ok {
        MembersOfOthers(earlier, ConflictId(c));
        ok := InsertMembers(c);
        assert (earlier + [c])[..|earlier|] == earlier;
      }
    }

    /** Delete everything and insert the report, all or nothing. */
    method RefreshDefinitionsAndConflicts(
      summaries: seq<DefinitionSummary>, conflicts: seq<Conflict>, commits: bool) returns (ok: bool)
      modifies this
      ensures ok <==> Admissible(summaries, conflicts) && commits
      ensures Now() == if ok then Stored(DefinitionRows(summaries), GroupRows(conflicts), MemberRows(conflicts))
                       else old(Now())
    {
      var begun := Stored(definitions, groups, members);
      members, groups, definitions := [], [], [];
      ok := InsertDefinitions(summaries);
      if ok {
        ok := InsertConflicts(summaries, conflicts);
      }
      if !ok || !commits {
        definitions, groups, members := begun.definitions, begun.groups, begun.members;
        ok := false;
      }
    }

    /** The first definition of each name is stored, with all conflicts. */
    method RefreshOutputs(report: Report, commits: bool) returns (ok: bool)
      modifies this
      ensures ok <==> Admissible(FirstOfName(report.definitions), report.conflicts) && commits
      ensures
        var kept := FirstOfName(report.definitions);
        Now() == if ok then Stored(DefinitionRows(kept), GroupRows(report.conflicts), MemberRows(report.conflicts))
                 else old(Now())
    {
      var seen: set<string> := {};
      var kept := [];
      for i := 0 to |report.definitions|
        invariant kept == FirstOfName(report.definitions[..i])
        invariant forall name :: name in seen <==> exists k :: 0 <= k < i && report.definitions[k].canonicalName == name
        invariant Now() == old(Now())
      {
        var d := report.definitions[i];
        assert report.definitions[..i + 1][..i] == report.definitions[..i];
        if d.canonicalName !in seen {
          kept := kept + [d];
        }
        seen := seen + {d.canonicalName};
      }
      assert report.definitions[..|report.definitions|] == report.definitions;
      ok := RefreshDefinitionsAndConflicts(kept, report.conflicts, commits);
    }
  }

  function FirstOfName(definitions: seq<DefinitionSummary>): seq<DefinitionSummary> {
    if definitions == [] then []
    else
      var earlier, last := definitions[..|definitions| - 1], definitions[|definitions| - 1];
      var known := exists k :: 0 <= k < |earlier| && earlier[k].canonicalName == last.canonicalName;
      FirstOfName(earlier) + if known then [] else [last]
  }

  // ----- proofs -----------------------------------------------------------------------------

  ghost predicate ConflictsAdmissible(definitions: seq<DefinitionSummary>, conflicts: seq<Conflict>) {
    && DistinctGroups(conflicts)
    && (forall i :: 0 <= i < |conflicts| ==> DistinctMembers(conflicts[i].members))
    && (forall i :: 0 <= i < |conflicts| ==> HasSummary(definitions, conflicts[i].bucket.definition))
  }

  ghost predicate HasConflictId(conflicts: seq<Conflict>, id: string) {
    exists k :: 0 <= k < |conflicts| && ConflictId(conflicts[k]) == id
  }

  ghost predicate FitsIn(definitions: seq<DefinitionSummary>, conflicts: seq<Conflict>, c: Conflict) {
    !HasConflictId(conflicts, ConflictId(c)) && DistinctMembers(c.members) &&
    HasSummary(definitions, c.bucket.definition)
  }

  lemma NextAdmissible(definitions: seq<DefinitionSummary>, conflicts: seq<Conflict>, c: Conflict)
    requires ConflictsAdmissible(definitions, conflicts)
    ensures ConflictsAdmissible(definitions, conflicts + [c]) <==> FitsIn(definitions, conflicts, c)
  {
    var more := conflicts + [c];
    assert more[|conflicts|] == c && forall k :: 0 <= k < |conflicts| ==> more[k] == conflicts[k];
  }

  lemma PrefixAdmissible(definitions: seq<DefinitionSummary>, conflicts: seq<Conflict>, n: nat)
    requires n <= |conflicts| && ConflictsAdmissible(definitions, conflicts)
    ensures ConflictsAdmissible(definitions, conflicts[..n])
  {
  }

  lemma NextConflict(definitions: seq<DefinitionSummary>, conflicts: seq<Conflict>, i: nat)
    requires i < |conflicts| && ConflictsAdmissible(definitions, conflicts[..i])
    ensures conflicts[..i + 1] == conflicts[..i] + [conflicts[i]]
    ensures if FitsIn(definitions, conflicts[..i], conflicts[i])
            then ConflictsAdmissible(definitions, conflicts[..i + 1])
            else !ConflictsAdmissible(definitions, conflicts)
  {
    assert conflicts[..i + 1] == conflicts[..i] + [conflicts[i]];
    NextAdmissible(definitions, conflicts[..i], conflicts[i]);
    if ConflictsAdmissible(definitions, conflicts) {
      PrefixAdmissible(definitions, conflicts, i + 1);
    }
  }

  lemma GroupIsStored(conflicts: seq<Conflict>, id: string)
    ensures HasConflictId(conflicts, id) <==> HasGroup(GroupRows(conflicts), id)
  {
    if HasConflictId(conflicts, id) {
      var k :| 0 <= k < |conflicts| && ConflictId(conflicts[k]) == id;
      assert GroupRows(conflicts)[k].id == id;
    }
  }

  lemma DefinitionIsStored(summaries: seq<DefinitionSummary>, definition: string)
    ensures HasSummary(summaries, definition) <==> HasDefinition(DefinitionRows(summaries), definition)
  {
    if HasSummary(summaries, definition) {
      var k :| 0 <= k < |summaries| && summaries[k].id == definition;
      assert DefinitionRows(summaries)[k].id == definition;
    }
  }

  ghost predicate Fresh(earlier: seq<DefinitionSummary>, d: DefinitionSummary) {
    forall k :: 0 <= k < |earlier| ==> earlier[k].id != d.id && earlier[k].canonicalName != d.canonicalName
  }

  /** A definition is refused iff an earlier one has its id or its name. */
  lemma NextDefinition(summaries: seq<DefinitionSummary>, i: nat)
    requires i < |summaries| && DistinctDefinitions(summaries[..i])
    ensures
      var rows, d := DefinitionRows(summaries[..i]), summaries[i];
      && (Fresh(summaries[..i], d) <==>
          forall k :: 0 <= k < |rows| ==> rows[k].id != d.id && rows[k].canonicalName != d.canonicalName)
      && (if Fresh(summaries[..i], d) then DistinctDefinitions(summaries[..i + 1]) else !DistinctDefinitions(summaries))
      && DefinitionRows(summaries[..i + 1]) == rows + [DefinitionRowFor(d)]
  {
    var earlier, d := summaries[..i], summaries[i];
    assert summaries[..i + 1] == earlier + [d];
    var rows := DefinitionRows(earlier);
    assert forall k :: 0 <= k < i ==> rows[k] == DefinitionRowFor(earlier[k]);
    if !Fresh(earlier, d) {
      var k :| 0 <= k < i && !(earlier[k].id != d.id && earlier[k].canonicalName != d.canonicalName);
      assert summaries[k] == earlier[k];
    }
  }

  /** A member is refused iff an earlier one of its group has its instance. */
  lemma NextMember(others: seq<MemberRow>, c: Conflict, k: nat)
    requires k < |c.members| && DistinctMembers(c.members[..k])
    requires forall row :: row in others ==> row.group != ConflictId(c)
    ensures MemberRow(ConflictId(c), c.members[k].id) !in others + MemberRowsOf(c, k) <==>
            DistinctMembers(c.members[..k + 1])
    ensures MemberRowsOf(c, k + 1) == MemberRowsOf(c, k) + [MemberRow(ConflictId(c), c.members[k].id)]
  {
    var row, shorter, longer := MemberRow(ConflictId(c), c.members[k].id), c.members[..k], c.members[..k + 1];
    assert forall i :: 0 <= i < k ==> MemberRowsOf(c, k)[i] == MemberRow(ConflictId(c), shorter[i].id);
    assert longer == shorter + [c.members[k]];
    if i :| 0 <= i < k && shorter[i].id == c.members[k].id {
      assert MemberRowsOf(c, k)[i] == row && longer[i].id == longer[k].id;
    } else {
      assert row !in others && row !in MemberRowsOf(c, k);
    }
  }

  lemma DistinctPrefix(members: seq<Instance>, n: nat)
    requires n <= |members|
    ensures DistinctMembers(members) ==> DistinctMembers(members[..n])
  {
  }

  lemma {:induction false} MembersOfOthers(conflicts: seq<Conflict>, id: string)
    requires forall k :: 0 <= k < |conflicts| ==> ConflictId(conflicts[k]) != id
    ensures forall row :: row in MemberRows(conflicts) ==> row.group != id
  {
    if conflicts != [] {
      MembersOfOthers(conflicts[..|conflicts| - 1], id);
    }
  }

  /** Distinct names lose no definition. */
  lemma {:induction false} FirstOfDistinctNames(definitions: seq<DefinitionSummary>)
    requires forall i, j :: 0 <= i < j < |definitions| ==> definitions[i].canonicalName != definitions[j].canonicalName
    ensures FirstOfName(definitions) == definitions
  {
    if definitions != [] {
      FirstOfDistinctNames(definitions[..|definitions| - 1]);
      assert definitions == definitions[..|definitions| - 1] + [definitions[|definitions| - 1]];
    }
  }

  ghost predicate DistinctIds(all: seq<Instance>) {
    forall i, j :: 0 <= i < j < |all| ==> all[i].id != all[j].id
  }

  /** A name belongs to one definition. */
  ghost predicate NamesDefine(all: seq<Instance>) {
    forall x, y :: x in all && y in all && x.name == y.name ==> x.definition == y.definition
  }

  lemma SummariesHaveDistinctNames(
    all: seq<Instance>, namespaces: Namespaces, report: Report, table: map<string, seq<Instance>>)
    requires IsReport(all, namespaces, report, table) && NamesDefine(all)
    ensures DistinctDefinitions(report.definitions)
  {
    forall i, j | 0 <= i < j < |report.definitions|
      ensures report.definitions[i].canonicalName != report.definitions[j].canonicalName
    {
      var d, e := report.definitions[i], report.definitions[j];
      assert SummaryRight(all, namespaces, d, table[d.id]) && SummaryRight(all, namespaces, e, table[e.id]);
      FilteredSelects(all, Defines(d.id));
      FilteredSelects(all, Defines(e.id));
      SelectsMembers(all, Defines(d.id), table[d.id], table[d.id][0]);
      SelectsMembers(all, Defines(e.id), table[e.id], table[e.id][0]);
    }
  }

  lemma SameIdSameIndex(s: seq<Instance>, i: nat, j: nat)
    requires DistinctIds(s) && i < |s| && j < |s| && s[i].id == s[j].id
    ensures i == j
  {
  }

  lemma {:induction false} CountOfDistinct(s: seq<Instance>, x: Instance)
    requires DistinctIds(s)
    ensures multiset(s)[x] <= 1
  {
    if s != [] {
      var shorter, last := s[..|s| - 1], s[|s| - 1];
      CountOfDistinct(shorter, x);
      assert s == shorter + [last];
      assert forall k :: 0 <= k < |shorter| ==> shorter[k].id != last.id;
      assert last !in shorter;
    }
  }

  lemma CountOfTwo(s: seq<Instance>, i: nat, j: nat)
    requires i < j < |s| && s[i] == s[j]
    ensures multiset(s)[s[i]] >= 2
  {
    assert s == s[..j] + s[j..];
    assert s[..j][i] == s[i] && s[j..][0] == s[i];
    assert s[i] in multiset(s[..j]) && s[i] in multiset(s[j..]);
  }

  lemma MembersAreDistinct(all: seq<Instance>, namespaces: Namespaces, c: Conflict)
    requires DistinctIds(all) && FillsBucket(all, namespaces, c.bucket, c.members)
    ensures DistinctMembers(c.members)
  {
    forall i, j | 0 <= i < j < |c.members| ensures c.members[i].id != c.members[j].id {
      FilledBucketCollides(all, namespaces, c.bucket, c.members);
      assert c.members[i] in all && c.members[j] in all;
      var k :| 0 <= k < |all| && all[k] == c.members[i];
      var l :| 0 <= l < |all| && all[l] == c.members[j];
      if c.members[i].id == c.members[j].id {
        SameIdSameIndex(all, k, l);
        CountOfTwo(c.members, i, j);
        CountOfDistinct(all, c.members[i]);
      }
    }
  }

  lemma ConflictsAreDistinct(all: seq<Instance>, namespaces: Namespaces, conflicts: seq<Conflict>)
    requires IsGrouping(all, namespaces, Any(), conflicts) && DistinctIds(all)
    requires forall x :: x in all ==> ':' !in x.definition && ':' !in x.agent
    ensures DistinctGroups(conflicts) && forall i :: 0 <= i < |conflicts| ==> DistinctMembers(conflicts[i].members)
  {
    forall i, j | 0 <= i < j < |conflicts| ensures ConflictId(conflicts[i]) != ConflictId(conflicts[j]) {
      if ConflictId(conflicts[i]) == ConflictId(conflicts[j]) {
        ConflictIdsAreDistinct(all, namespaces, conflicts, i, j);
      }
    }
    forall i | 0 <= i < |conflicts| ensures DistinctMembers(conflicts[i].members) {
      MembersAreDistinct(all, namespaces, conflicts[i]);
    }
  }

  /** Every report on scanned instances keeps all its definitions and meets the constraints of the tables. */
  lemma ReportsAreAdmissible(
    all: seq<Instance>, namespaces: Namespaces, report: Report, table: map<string, seq<Instance>>,
    hash: string -> string)
    requires IsReport(all, namespaces, report, table) && DistinctIds(all) && Scanned(all, hash) && IdealHash(hash)
    ensures FirstOfName(report.definitions) == report.definitions
    ensures Admissible(report.definitions, report.conflicts)
  {
    SummariesHaveDistinctNames(all, namespaces, report, table);
    FirstOfDistinctNames(report.definitions);
    ScannedHaveNoColons(all, hash);
    ConflictsAreDistinct(all, namespaces, report.conflicts);
    forall i | 0 <= i < |report.conflicts|
      ensures HasSummary(report.definitions, report.conflicts[i].bucket.definition)
    {
      ConflictHasSummary(all, namespaces, report, table, i);
    }
  }

  lemma ConflictHasSummary(
    all: seq<Instance>, namespaces: Namespaces, report: Report, table: map<string, seq<Instance>>, i: nat)
    requires IsReport(all, namespaces, report, table) && i < |report.conflicts|
    ensures HasSummary(report.definitions, report.conflicts[i].bucket.definition)
  {
    var b := report.conflicts[i].bucket;
    assert Collides(all, namespaces, b);
    var x :| x in all && BucketOf(all, namespaces, x) == Some(b);
    assert x.definition in table;
  }
}
