/**
 * Evaluating the instances and storing what the rules say, in two transactions: definitions and conflicts, then
 * findings (crates/commands/src/lib.rs 2352-2369, 2839-2892; crates/commands/src/analysis.rs 578-633).
 */
module RuleOutputs {
  import opened Common
  import opened ConflictGroups
  import opened RefreshReport
  import Decimal
  import FindingTriage

  const NAME_COLLISION := "name.collision"
  const FIELD: char := FindingTriage.FIELD

  /** A finding of any rule. */
  datatype RuleFinding = RuleFinding(
    instance: Option<string>, definition: Option<string>, rule: string, severity: string, message: string,
    suggestion: Option<string>)

  datatype OutputError = DefinitionsRefused | FindingsRefused

  // ----- findings ---------------------------------------------------------------------------

  function NameOf(definitions: seq<DefinitionSummary>, id: string): string {
    if definitions == [] then ""
    else if definitions[0].id == id then definitions[0].canonicalName
    else NameOf(definitions[1..], id)
  }

  function CollisionFinding(definitions: seq<DefinitionSummary>, f: Finding): RuleFinding {
    RuleFinding(
      Some(f.instanceId), Some(f.definitionId), NAME_COLLISION, if f.severity.Warn? then "warn" else "info",
      f.agent + " runtime sees skill name '" + NameOf(definitions, f.definitionId) + "' in " +
      Decimal.Digits(f.locations) + " locations.",
      Some(if f.severity.Warn? then "Compare the conflicting skill bodies and choose the intended version."
           else "Confirm that duplicate skill locations are intentional."))
  }

  function CollisionFindings(report: Report): seq<RuleFinding> {
    seq(|report.findings|, i requires 0 <= i < |report.findings| =>
      CollisionFinding(report.definitions, report.findings[i]))
  }

  /** The rules that look at one instance come before the collisions, the local ones after them. */
  function AllFindings(before: seq<RuleFinding>, report: Report, after: seq<RuleFinding>): seq<RuleFinding> {
    before + CollisionFindings(report) + after
  }

  /** What makes two findings the same to the rules. */
  function FindingKey(f: RuleFinding): string {
    f.instance.GetOr("") + [FIELD] +
    (f.definition.GetOr("") + [FIELD] + (f.rule + [FIELD] + (f.message + [FIELD] + f.suggestion.GetOr(""))))
  }

  function FirstOfKey(findings: seq<RuleFinding>): seq<RuleFinding> {
    if findings == [] then []
    else
      var earlier, last := findings[..|findings| - 1], findings[|findings| - 1];
      FirstOfKey(earlier) + if HasKey(earlier, FindingKey(last)) then [] else [last]
  }

  predicate HasKey(findings: seq<RuleFinding>, key: string) {
    exists k :: 0 <= k < |findings| && FindingKey(findings[k]) == key
  }

  ghost predicate DistinctKeys(findings: seq<RuleFinding>) {
    forall i, j :: 0 <= i < j < |findings| ==> FindingKey(findings[i]) != FindingKey(findings[j])
  }

  method DedupeRuleFindings(findings: seq<RuleFinding>) returns (kept: seq<RuleFinding>)
    ensures kept == FirstOfKey(findings)
  {
    var seen: set<string> := {};
    kept := [];
    for i := 0 to |findings|
      invariant kept == FirstOfKey(findings[..i])
      invariant forall key :: key in seen <==> HasKey(findings[..i], key)
    {
      var key := FindingKey(findings[i]);
      NextKey(findings, i);
      if key !in seen {
        kept := kept + [findings[i]];
      }
      seen := seen + {key};
    }
    assert findings[..|findings|] == findings;
  }

  lemma NextKey(findings: seq<RuleFinding>, i: nat)
    requires i < |findings|
    ensures FirstOfKey(findings[..i + 1]) ==
            FirstOfKey(findings[..i]) + if HasKey(findings[..i], FindingKey(findings[i])) then [] else [findings[i]]
    ensures forall key ::
              HasKey(findings[..i + 1], key) <==> HasKey(findings[..i], key) || key == FindingKey(findings[i])
  {
    var earlier, longer := findings[..i], findings[..i + 1];
    assert longer[..i] == earlier && longer[i] == findings[i];
    forall key ensures HasKey(longer, key) <==> HasKey(earlier, key) || key == FindingKey(findings[i]) {
      if HasKey(earlier, key) {
        var k :| 0 <= k < i && FindingKey(earlier[k]) == key;
        assert longer[k] == earlier[k];
      }
    }
  }

  /** What is kept has no key twice, is among the findings, and has every key of them. */
  lemma {:induction false} KeptOncePerKey(findings: seq<RuleFinding>)
    ensures DistinctKeys(FirstOfKey(findings))
    ensures forall f :: f in FirstOfKey(findings) ==> f in findings
    ensures forall key :: HasKey(FirstOfKey(findings), key) <==> HasKey(findings, key)
  {
    if findings != [] {
      var n := |findings| - 1;
      var earlier, kept := findings[..n], FirstOfKey(findings[..n]);
      assert findings[..n + 1] == findings;
      KeptOncePerKey(earlier);
      NextKey(findings, n);
      if !HasKey(earlier, FindingKey(findings[n])) {
        OneMoreKey(kept, findings[n]);
      } else {
        assert kept + [] == kept;
      }
    }
  }

  lemma OneMoreKey(kept: seq<RuleFinding>, f: RuleFinding)
    requires DistinctKeys(kept) && !HasKey(kept, FindingKey(f))
    ensures DistinctKeys(kept + [f])
    ensures forall key :: HasKey(kept + [f], key) <==> HasKey(kept, key) || key == FindingKey(f)
  {
    var more := kept + [f];
    assert more[|kept|] == f;
    forall key ensures HasKey(more, key) <==> HasKey(kept, key) || key == FindingKey(f) {
      if HasKey(kept, key) {
        var k :| 0 <= k < |kept| && FindingKey(kept[k]) == key;
        assert more[k] == kept[k];
      }
    }
  }

  /** A finding whose key no other finding has is kept. */
  lemma SoleIsKept(findings: seq<RuleFinding>, f: RuleFinding)
    requires f in findings && forall g :: g in findings && FindingKey(g) == FindingKey(f) ==> g == f
    ensures f in FirstOfKey(findings)
  {
    KeptOncePerKey(findings);
    var i :| 0 <= i < |findings| && findings[i] == f;
    assert HasKey(findings, FindingKey(f));
    var kept := FirstOfKey(findings);
    var k :| 0 <= k < |kept| && FindingKey(kept[k]) == FindingKey(f);
    assert kept[k] in kept;
  }

  // ----- drafts -----------------------------------------------------------------------------

  function WithoutSlashes(text: string): string {
    seq(|text|, i requires 0 <= i < |text| => if text[i] == '/' then '_' else text[i])
  }

  function DraftId(f: RuleFinding, index: nat): string {
    WithoutSlashes(f.rule + ":" + f.instance.GetOr(f.definition.GetOr("global"))) + ":" + Decimal.Digits(index)
  }

  function DraftFor(f: RuleFinding, index: nat): FindingTriage.Draft {
    FindingTriage.Draft(DraftId(f, index), f.instance, f.definition, f.rule, f.severity, f.message, f.suggestion)
  }

  function Drafts(findings: seq<RuleFinding>): seq<FindingTriage.Draft> {
    seq(|findings|, i requires 0 <= i < |findings| => DraftFor(findings[i], i))
  }

  /** Draft ids end in their index, so they are distinct whatever the findings. */
  lemma DraftIdsAreDistinct(findings: seq<RuleFinding>)
    ensures FindingTriage.DistinctDraftIds(Drafts(findings))
  {
    forall i, j | 0 <= i < j < |findings| ensures Drafts(findings)[i].id != Drafts(findings)[j].id {
      if DraftId(findings[i], i) == DraftId(findings[j], j) {
        var a := WithoutSlashes(findings[i].rule + ":" +
          findings[i].instance.GetOr(findings[i].definition.GetOr("global")));
        var b := WithoutSlashes(findings[j].rule + ":" +
          findings[j].instance.GetOr(findings[j].definition.GetOr("global")));
        LastFieldDetermined(a, Decimal.Digits(i), b, Decimal.Digits(j), ':');
        Decimal.DigitsDiffer(i, j);
      }
    }
  }

  /** Stored findings have distinct review keys: no review of one shows at another. */
  lemma ReviewKeysAreDistinct(
    findings: seq<RuleFinding>, instances: map<string, FindingTriage.Instance>, hash: string -> string, i: nat, j: nat)
    requires IdealHash(hash) && DistinctKeys(findings) && i < j < |findings|
    requires forall d :: d in Drafts(findings) ==> FindingTriage.Plain(FindingTriage.IdentityOf(instances, d))
    ensures var rows := FindingTriage.RowsFor(instances, hash, Drafts(findings));
            rows[i].triageKey != rows[j].triageKey
  {
    var c, d := Drafts(findings)[i], Drafts(findings)[j];
    assert c in Drafts(findings) && d in Drafts(findings);
    FindingTriage.KeyIdentifies(
      FindingTriage.IdentityOf(instances, c), FindingTriage.IdentityOf(instances, d), hash);
    assert FindingKey(findings[i]) != FindingKey(findings[j]);
  }

  // ----- the two transactions ---------------------------------------------------------------

  /** Definitions and conflicts first; only when they are stored, the findings. */
  method RefreshRuleOutputs(
    tables: Tables, catalog: FindingTriage.Catalog, report: Report, findings: seq<RuleFinding>,
    definitionsCommit: bool, findingsCommit: bool)
    returns (r: Result<(), OutputError>)
    modifies tables, catalog`findings
    ensures
      var kept := FirstOfName(report.definitions);
      var stored := Admissible(kept, report.conflicts) && definitionsCommit;
      && (r.Ok? <==> stored && findingsCommit) && (r == Err(DefinitionsRefused) <==> !stored)
      && tables.Now() ==
         (if stored then Stored(DefinitionRows(kept), GroupRows(report.conflicts), MemberRows(report.conflicts))
                          else old(tables.Now()))
      && catalog.findings ==
         (if r.Ok? then FindingTriage.RowsFor(catalog.instances, catalog.hash, Drafts(FirstOfKey(findings)))
                              else old(catalog.findings))
  {
    var kept := DedupeRuleFindings(findings);
    var stored := tables.RefreshOutputs(report, definitionsCommit);
    if !stored {
      return Err(DefinitionsRefused);
    }
    DraftIdsAreDistinct(kept);
    var refreshed := catalog.RefreshRuleFindings(Drafts(kept), findingsCommit);
    r := if refreshed.Ok? then Ok(()) else Err(FindingsRefused);
  }

  /**
   * Evaluates the scanned instances and stores the report. It succeeds exactly when both commits do; a failure of the
   * second one leaves new definitions and conflicts beside the old findings.
   */
  method RefreshCatalogRuleOutputs(
    tables: Tables, catalog: FindingTriage.Catalog, all: seq<Instance>, namespaces: Namespaces,
    before: seq<RuleFinding>, after: seq<RuleFinding>, definitionsCommit: bool, findingsCommit: bool,
    ghost hash: string -> string)
    returns (report: Report, ghost table: map<string, seq<Instance>>, r: Result<(), OutputError>)
    requires DistinctIds(all) && Scanned(all, hash) && IdealHash(hash)
    modifies tables, catalog`findings
    ensures IsReport(all, namespaces, report, table)
    ensures r.Ok? <==> definitionsCommit && findingsCommit
    ensures
      var (definitions, conflicts) := (report.definitions, report.conflicts);
      tables.Now() == if definitionsCommit then
        Stored(DefinitionRows(definitions), GroupRows(conflicts), MemberRows(conflicts))
                      else old(tables.Now())
    ensures
      var kept := FirstOfKey(AllFindings(before, report, after));
      catalog.findings == if r.Ok? then FindingTriage.RowsFor(catalog.instances, catalog.hash, Drafts(kept))
                          else old(catalog.findings)
  {
    var groups;
    report, groups := AppendNameCollisionResults(all, namespaces);
    table := groups;
    ReportsAreAdmissible(all, namespaces, report, table, hash);
    r := RefreshRuleOutputs(
      tables, catalog, report, AllFindings(before, report, after), definitionsCommit, findingsCommit);
  }

  // ----- collisions in what is stored -------------------------------------------------------

  /** The finding of the k-th member of the i-th conflict. */
  ghost function MembershipFinding(report: Report, i: nat, k: nat): RuleFinding
    requires i < |report.conflicts| && k < |report.conflicts[i].members|
  {
    CollisionFinding(report.definitions, FindingFor(report.conflicts[i], report.conflicts[i].members[k]))
  }

  /** Texts that a key joins without escaping, but for message and suggestion at its end. */
  ghost predicate PlainFinding(f: RuleFinding) {
    FIELD !in f.instance.GetOr("") && FIELD !in f.definition.GetOr("") && FIELD !in f.rule
  }

  lemma KeyHead(f: RuleFinding, g: RuleFinding)
    requires PlainFinding(f) && PlainFinding(g) && FindingKey(f) == FindingKey(g)
    ensures f.instance.GetOr("") == g.instance.GetOr("") && f.rule == g.rule
  {
    var mf, mg := f.message + [FIELD] + f.suggestion.GetOr(""), g.message + [FIELD] + g.suggestion.GetOr("");
    var rf, rg := f.rule + [FIELD] + mf, g.rule + [FIELD] + mg;
    FieldsDetermined(
      f.instance.GetOr(""), f.definition.GetOr("") + [FIELD] + rf,
      g.instance.GetOr(""), g.definition.GetOr("") + [FIELD] + rg, FIELD);
    FieldsDetermined(f.definition.GetOr(""), rf, g.definition.GetOr(""), rg, FIELD);
    FieldsDetermined(f.rule, mf, g.rule, mg, FIELD);
  }

  /** A finding of a report belongs to a member of a conflict. */
  lemma {:induction false} FindingHasMember(conflicts: seq<Conflict>, f: Finding)
    requires f in FindingsFor(conflicts)
    ensures exists i, k :: 0 <= i < |conflicts| && 0 <= k < |conflicts[i].members| &&
              f == FindingFor(conflicts[i], conflicts[i].members[k])
  {
    var n := |conflicts| - 1;
    var c := conflicts[n];
    if f in FindingsOfConflict(c, |c.members|) {
      var k :| 0 <= k < |c.members| && FindingsOfConflict(c, |c.members|)[k] == f;
      assert f == FindingFor(conflicts[n], conflicts[n].members[k]);
    } else {
      FindingHasMember(conflicts[..n], f);
      var i, k :| 0 <= i < n && 0 <= k < |conflicts[..n][i].members| &&
                  f == FindingFor(conflicts[..n][i], conflicts[..n][i].members[k]);
      assert conflicts[..n][i] == conflicts[i];
    }
  }

  lemma MemberIsScanned(
    all: seq<Instance>, namespaces: Namespaces, b: Bucket, members: seq<Instance>, x: Instance)
    requires FillsBucket(all, namespaces, b, members) && x in members
    ensures x in all && x.definition == b.definition
  {
    FilledBucketCollides(all, namespaces, b, members);
  }

  lemma SameIdSameInstance(all: seq<Instance>, x: Instance, y: Instance)
    requires DistinctIds(all) && x in all && y in all && x.id == y.id
    ensures x == y
  {
    var m :| 0 <= m < |all| && all[m] == x;
    var n :| 0 <= n < |all| && all[n] == y;
    SameIdSameIndex(all, m, n);
  }

  lemma DistinctAt(members: seq<Instance>, k: nat, l: nat)
    requires DistinctMembers(members) && k < |members| && l < |members| && members[k].id == members[l].id
    ensures k == l
  {
  }

  /** Two memberships of one instance are one membership. */
  lemma SameMembership(
    all: seq<Instance>, namespaces: Namespaces, conflicts: seq<Conflict>, i: nat, k: nat, j: nat, l: nat)
    requires IsGrouping(all, namespaces, Any(), conflicts) && DistinctIds(all)
    requires i < |conflicts| && k < |conflicts[i].members| && j < |conflicts| && l < |conflicts[j].members|
    requires conflicts[i].members[k].id == conflicts[j].members[l].id
    ensures i == j && k == l
  {
    var c, d := conflicts[i], conflicts[j];
    MemberIsScanned(all, namespaces, c.bucket, c.members, c.members[k]);
    MemberIsScanned(all, namespaces, d.bucket, d.members, d.members[l]);
    SameIdSameInstance(all, c.members[k], d.members[l]);
    InOneGroupAtMost(all, namespaces, conflicts, c.members[k], i, j);
    MembersAreDistinct(all, namespaces, c);
    DistinctAt(c.members, k, l);
  }

  lemma CollisionIsMembership(report: Report, g: RuleFinding)
    requires report.findings == FindingsFor(report.conflicts) && g in CollisionFindings(report)
    ensures exists i, k :: 0 <= i < |report.conflicts| && 0 <= k < |report.conflicts[i].members| &&
              g == MembershipFinding(report, i, k)
  {
    var n :| 0 <= n < |report.findings| && CollisionFindings(report)[n] == g;
    FindingHasMember(report.conflicts, report.findings[n]);
    var i, k :| 0 <= i < |report.conflicts| && 0 <= k < |report.conflicts[i].members| &&
                report.findings[n] == FindingFor(report.conflicts[i], report.conflicts[i].members[k]);
    assert g == MembershipFinding(report, i, k);
  }

  lemma MembershipIsCollision(report: Report, i: nat, k: nat)
    requires report.findings == FindingsFor(report.conflicts)
    requires i < |report.conflicts| && k < |report.conflicts[i].members|
    ensures MembershipFinding(report, i, k) in CollisionFindings(report)
  {
    MembershipIsFinding(report.conflicts, i, k);
    FindingIsCollision(report, FindingFor(report.conflicts[i], report.conflicts[i].members[k]));
  }

  lemma MembershipIsFinding(conflicts: seq<Conflict>, i: nat, k: nat)
    requires i < |conflicts| && k < |conflicts[i].members|
    ensures FindingFor(conflicts[i], conflicts[i].members[k]) in FindingsFor(conflicts)
  {
    FindingsAreMemberships(conflicts, i, k);
  }

  lemma FindingIsCollision(report: Report, f: Finding)
    requires f in report.findings
    ensures CollisionFinding(report.definitions, f) in CollisionFindings(report)
  {
    var n :| 0 <= n < |report.findings| && report.findings[n] == f;
    assert CollisionFindings(report)[n] == CollisionFinding(report.definitions, f);
  }

  /** The findings of the other rules. */
  ghost predicate OtherRules(findings: seq<RuleFinding>) {
    forall f :: f in findings ==> f.rule != NAME_COLLISION && PlainFinding(f)
  }

  lemma MembershipIsPlain(
    all: seq<Instance>, namespaces: Namespaces, report: Report, table: map<string, seq<Instance>>,
    hash: string -> string, i: nat, k: nat)
    requires IsReport(all, namespaces, report, table) && Scanned(all, hash) && IdealHash(hash)
    requires forall x :: x in all ==> FIELD !in x.id
    requires i < |report.conflicts| && k < |report.conflicts[i].members|
    ensures PlainFinding(MembershipFinding(report, i, k))
  {
    var c := report.conflicts[i];
    var x := c.members[k];
    MemberIsScanned(all, namespaces, c.bucket, c.members, x);
    DefinitionIsPlain(all, hash, x);
    CollisionIsPlain(report.definitions, FindingFor(c, x));
  }

  lemma CollisionIsPlain(definitions: seq<DefinitionSummary>, f: Finding)
    requires FIELD !in f.instanceId && FIELD !in f.definitionId
    ensures PlainFinding(CollisionFinding(definitions, f))
  {
  }

  lemma DefinitionIsPlain(all: seq<Instance>, hash: string -> string, x: Instance)
    requires Scanned(all, hash) && IdealHash(hash) && x in all
    ensures FIELD !in x.definition
  {
    assert IsHex(hash(AsciiLowered(x.name)));
  }

  /**
   * Removing duplicates loses no collision: every membership of a conflict has its finding among those stored, and
   * every stored finding of that rule is one of them.
   */
  lemma EveryCollisionIsKept(
    all: seq<Instance>, namespaces: Namespaces, report: Report, table: map<string, seq<Instance>>,
    before: seq<RuleFinding>, after: seq<RuleFinding>, hash: string -> string, i: nat, k: nat)
    requires IsReport(all, namespaces, report, table) && DistinctIds(all) && Scanned(all, hash) && IdealHash(hash)
    requires (forall x :: x in all ==> FIELD !in x.id) && OtherRules(before) && OtherRules(after)
    requires i < |report.conflicts| && k < |report.conflicts[i].members|
    ensures MembershipFinding(report, i, k) in FirstOfKey(AllFindings(before, report, after))
  {
    var f, findings := MembershipFinding(report, i, k), AllFindings(before, report, after);
    MembershipIsCollision(report, i, k);
    MembershipIsPlain(all, namespaces, report, table, hash, i, k);
    forall g | g in findings && FindingKey(g) == FindingKey(f) ensures g == f {
      SameKeySameMembership(all, namespaces, report, table, before, after, hash, i, k, g);
    }
    SoleIsKept(findings, f);
  }

  lemma SameKeySameMembership(
    all: seq<Instance>, namespaces: Namespaces, report: Report, table: map<string, seq<Instance>>,
    before: seq<RuleFinding>, after: seq<RuleFinding>, hash: string -> string, i: nat, k: nat, g: RuleFinding)
    requires IsReport(all, namespaces, report, table) && DistinctIds(all) && Scanned(all, hash) && IdealHash(hash)
    requires (forall x :: x in all ==> FIELD !in x.id) && OtherRules(before) && OtherRules(after)
    requires i < |report.conflicts| && k < |report.conflicts[i].members|
    requires g in AllFindings(before, report, after) && FindingKey(g) == FindingKey(MembershipFinding(report, i, k))
    ensures g == MembershipFinding(report, i, k)
  {
    var f := MembershipFinding(report, i, k);
    MembershipIsPlain(all, namespaces, report, table, hash, i, k);
    if g in CollisionFindings(report) {
      CollisionIsMembership(report, g);
      var j, l :| 0 <= j < |report.conflicts| && 0 <= l < |report.conflicts[j].members| &&
                  g == MembershipFinding(report, j, l);
      MembershipIsPlain(all, namespaces, report, table, hash, j, l);
      KeyHead(f, g);
      SameMembership(all, namespaces, report.conflicts, i, k, j, l);
    } else {
      assert g in before || g in after;
      KeyHead(f, g);
    }
  }

  /** Every stored finding of the collision rule is that of a membership. */
  lemma KeptCollisionsAreMemberships(
    all: seq<Instance>, namespaces: Namespaces, report: Report, table: map<string, seq<Instance>>,
    before: seq<RuleFinding>, after: seq<RuleFinding>, g: RuleFinding)
    requires IsReport(all, namespaces, report, table) && OtherRules(before) && OtherRules(after)
    requires g in FirstOfKey(AllFindings(before, report, after)) && g.rule == NAME_COLLISION
    ensures exists i, k :: 0 <= i < |report.conflicts| && 0 <= k < |report.conflicts[i].members| &&
              g == MembershipFinding(report, i, k)
  {
    KeptOncePerKey(AllFindings(before, report, after));
    CollisionIsMembership(report, g);
  }
}
