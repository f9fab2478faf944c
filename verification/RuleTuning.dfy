/**
 * Severity overrides and suppressions of rules, kept in one table
 * (crates/catalog/src/lib.rs 673-794; crates/catalog/src/queries.rs 310-430, 513-527;
 * crates/catalog/src/mapping.rs 303-308).
 */
module RuleTuning {
  import opened Common

  datatype Key = Key(rule: string, agent: string, scope: string)

  datatype Row = Row(severity: Option<string>, reason: Option<string>, note: Option<string>, updatedAt: int)

  datatype Suppression = Suppression(reason: string, note: Option<string>)

  datatype TuningError = ConstraintViolated

  function KeyOf(rule: string, agent: Option<string>, scope: Option<string>): Key {
    Key(rule, Trim(agent.GetOr("")), Trim(scope.GetOr("")))
  }

  predicate ValidSeverity(severity: string) {
    severity in {"critical", "error", "warn", "warning", "info"}
  }

  /** What the table admits, and a note only with its suppression. */
  predicate ValidRow(row: Row) {
    && (row.severity.Some? || row.reason.Some?)
    && (row.severity.Some? ==> ValidSeverity(row.severity.value))
    && (row.note.Some? ==> row.reason.Some?)
  }

  // ----- two maps in one table --------------------------------------------------------------

  function OverridesIn(rows: map<Key, Row>): map<Key, string> {
    map k | k in rows && rows[k].severity.Some? :: rows[k].severity.value
  }

  function SuppressionsIn(rows: map<Key, Row>): map<Key, Suppression> {
    map k | k in rows && rows[k].reason.Some? :: Suppression(rows[k].reason.value, rows[k].note)
  }

  ghost predicate ValidTable(rows: map<Key, Row>) {
    forall k :: k in rows ==> ValidRow(rows[k])
  }

  /** The two maps and the times are the whole table. */
  lemma TwoMapsAreTheTable(a: map<Key, Row>, b: map<Key, Row>)
    requires ValidTable(a) && ValidTable(b)
    requires OverridesIn(a) == OverridesIn(b) && SuppressionsIn(a) == SuppressionsIn(b)
    ensures a.Keys == b.Keys == OverridesIn(a).Keys + SuppressionsIn(a).Keys
    ensures forall k :: k in a ==> a[k] == b[k].(updatedAt := a[k].updatedAt)
  {
    forall k ensures k in a <==> k in OverridesIn(a) || k in SuppressionsIn(a) {}
    forall k ensures k in b <==> k in OverridesIn(b) || k in SuppressionsIn(b) {}
    forall k | k in a ensures a[k] == b[k].(updatedAt := a[k].updatedAt) {
      assert k in OverridesIn(a) <==> k in OverridesIn(b);
      assert k in SuppressionsIn(a) <==> k in SuppressionsIn(b);
    }
  }

  lemma ViewsOfUpdate(rows: map<Key, Row>, key: Key, row: Row)
    ensures OverridesIn(rows[key := row]) ==
            if row.severity.Some? then OverridesIn(rows)[key := row.severity.value] else OverridesIn(rows) - {key}
    ensures SuppressionsIn(rows[key := row]) ==
            if row.reason.Some? then SuppressionsIn(rows)[key := Suppression(row.reason.value, row.note)]
            else SuppressionsIn(rows) - {key}
  {
  }

  lemma ViewsOfRemoval(rows: map<Key, Row>, key: Key)
    ensures OverridesIn(rows - {key}) == OverridesIn(rows) - {key}
    ensures SuppressionsIn(rows - {key}) == SuppressionsIn(rows) - {key}
  {
  }

  class Table {
    var rows: map<Key, Row>

    ghost predicate Valid()
      reads this
    {
      ValidTable(rows)
    }

    ghost function Overrides(): map<Key, string>
      reads this
    {
      OverridesIn(rows)
    }

    ghost function Suppressions(): map<Key, Suppression>
      reads this
    {
      SuppressionsIn(rows)
    }

    constructor ()
      ensures Valid() && Overrides() == map[] && Suppressions() == map[]
    {
      rows := map[];
    }

    /** Insert or merge: a missing part keeps what the row had, a note is replaced only with its suppression. */
    method Upsert(
      key: Key, severity: Option<string>, reason: Option<string>, note: Option<string>, now: int) returns (ok: bool)
      requires Valid() && (severity.Some? || reason.Some?) && (note.Some? ==> reason.Some?)
      modifies this
      ensures Valid() && (ok <==> severity.None? || ValidSeverity(severity.value))
      ensures !ok ==> rows == old(rows)
      ensures ok ==> Overrides() == if severity.Some? then old(Overrides())[key := severity.value] else old(Overrides())
      ensures ok ==>
                Suppressions() == if reason.Some? then old(Suppressions())[key := Suppression(reason.value, note)]
                                  else old(Suppressions())
      ensures ok ==>
                rows.Keys == old(rows).Keys + {key} && rows[key].updatedAt == now && rows - {key} == old(rows) - {key}
    {
      if severity.Some? && !ValidSeverity(severity.value) {
        return false;
      }
      var row := Row(severity, reason, note, now);
      if key in rows {
        row := Row(
          if severity.Some? then severity else rows[key].severity,
          if reason.Some? then reason else rows[key].reason,
          if reason.Some? then note else rows[key].note,
          now);
      }
      ViewsOfUpdate(rows, key, row);
      rows := rows[key := row];
      ok := true;
    }

    method SetSeverityOverride(rule: string, agent: Option<string>, scope: Option<string>, severity: string, now: int)
      returns (r: Result<Row, TuningError>)
      requires Valid()
      modifies this
      ensures Valid() && (r.Ok? <==> ValidSeverity(severity))
      ensures r.Err? ==> rows == old(rows)
      ensures r.Ok? ==> Overrides() == old(Overrides())[KeyOf(rule, agent, scope) := severity]
      ensures r.Ok? ==>
              KeyOf(rule, agent, scope) in rows && r.value == rows[KeyOf(rule, agent, scope)] &&
              r.value.updatedAt == now
      ensures Suppressions() == old(Suppressions())
    {
      var key := KeyOf(rule, agent, scope);
      var ok := Upsert(key, Some(severity), None, None, now);
      if !ok {
        return Err(ConstraintViolated);
      }
      r := Ok(rows[key]);
    }

    method SetSuppression(
      rule: string, agent: Option<string>, scope: Option<string>, reason: string, note: Option<string>, now: int)
      returns (r: Row)
      requires Valid()
      modifies this
      ensures Valid() && Overrides() == old(Overrides())
      ensures Suppressions() == old(Suppressions())[KeyOf(rule, agent, scope) := Suppression(reason, note)]
      ensures KeyOf(rule, agent, scope) in rows && r == rows[KeyOf(rule, agent, scope)] && r.updatedAt == now
    {
      var key := KeyOf(rule, agent, scope);
      var _ := Upsert(key, None, Some(reason), note, now);
      r := rows[key];
    }

    method ClearSeverityOverride(
      rule: string, agent: Option<string>, scope: Option<string>, now: int) returns (cleared: bool)
      requires Valid()
      modifies this
      ensures Valid() && (cleared <==> KeyOf(rule, agent, scope) in old(Overrides()))
      ensures Overrides() == old(Overrides()) - {KeyOf(rule, agent, scope)}
      ensures Suppressions() == old(Suppressions())
      ensures !cleared ==> rows == old(rows)
    {
      var key := KeyOf(rule, agent, scope);
      if key in rows && rows[key].severity.Some? && rows[key].reason.None? {
        ViewsOfRemoval(rows, key);
        rows := rows - {key};
        return true;
      }
      if key in rows && rows[key].severity.Some? {
        ViewsOfUpdate(rows, key, rows[key].(severity := None, updatedAt := now));
        rows := rows[key := rows[key].(severity := None, updatedAt := now)];
        return true;
      }
      cleared := false;
    }

    method ClearSuppression(
      rule: string, agent: Option<string>, scope: Option<string>, now: int) returns (cleared: bool)
      requires Valid()
      modifies this
      ensures Valid() && (cleared <==> KeyOf(rule, agent, scope) in old(Suppressions()))
      ensures Suppressions() == old(Suppressions()) - {KeyOf(rule, agent, scope)}
      ensures Overrides() == old(Overrides())
      ensures !cleared ==> rows == old(rows)
    {
      var key := KeyOf(rule, agent, scope);
      if key in rows && rows[key].severity.None? && rows[key].reason.Some? {
        ViewsOfRemoval(rows, key);
        rows := rows - {key};
        return true;
      }
      if key in rows && rows[key].reason.Some? {
        ViewsOfUpdate(rows, key, rows[key].(reason := None, note := None, updatedAt := now));
        rows := rows[key := rows[key].(reason := None, note := None, updatedAt := now)];
        return true;
      }
      cleared := false;
    }

    /** A run of requests is the run of the override requests on one map beside that of the others on another. */
    method Replay(requests: seq<Request>)
      requires Valid()
      modifies this
      ensures Valid()
      ensures Overrides() == OverridesAfter(requests, old(Overrides()))
      ensures Suppressions() == SuppressionsAfter(requests, old(Suppressions()))
    {
      for i := 0 to |requests|
        invariant Valid()
        invariant Overrides() == OverridesAfter(requests[..i], old(Overrides()))
        invariant Suppressions() == SuppressionsAfter(requests[..i], old(Suppressions()))
      {
        assert requests[..i + 1][..i] == requests[..i];
        match requests[i] {
          case Override(rule, agent, scope, severity, now) =>
            var _ := SetSeverityOverride(rule, agent, scope, severity, now);
          case ClearOverride(rule, agent, scope, now) => var _ := ClearSeverityOverride(rule, agent, scope, now);
          case Suppress(rule, agent, scope, reason, note, now) =>
            var _ := SetSuppression(rule, agent, scope, reason, note, now);
          case Unsuppress(rule, agent, scope, now) => var _ := ClearSuppression(rule, agent, scope, now);
        }
      }
      assert requests[..|requests|] == requests;
    }
  }

  datatype Request =
    | Override(rule: string, agent: Option<string>, scope: Option<string>, severity: string, now: int)
    | ClearOverride(rule: string, agent: Option<string>, scope: Option<string>, now: int)
    | Suppress(
        rule: string, agent: Option<string>, scope: Option<string>, reason: string, note: Option<string>, now: int)
    | Unsuppress(rule: string, agent: Option<string>, scope: Option<string>, now: int)

  /** Only requests about overrides touch the overrides. */
  ghost function OverridesAfter(requests: seq<Request>, m: map<Key, string>): map<Key, string> {
    if requests == [] then m
    else
      var before, last := OverridesAfter(requests[..|requests| - 1], m), requests[|requests| - 1];
      var key := KeyOf(last.rule, last.agent, last.scope);
      if last.Override? && ValidSeverity(last.severity) then before[key := last.severity]
      else if last.ClearOverride? then before - {key}
      else before
  }

  ghost function SuppressionsAfter(requests: seq<Request>, m: map<Key, Suppression>): map<Key, Suppression> {
    if requests == [] then m
    else
      var before, last := SuppressionsAfter(requests[..|requests| - 1], m), requests[|requests| - 1];
      var key := KeyOf(last.rule, last.agent, last.scope);
      if last.Suppress? then before[key := Suppression(last.reason, last.note)]
      else if last.Unsuppress? then before - {key}
      else before
  }

  // ----- keys -------------------------------------------------------------------------------

  lemma {:induction false} TrimmedEnds(s: string)
    ensures TrimEnd(s) <= s && (TrimEnd(s) == "" || !IsSpace(TrimEnd(s)[|TrimEnd(s)| - 1]))
    decreases |s|
  {
    if s != "" && IsSpace(s[|s| - 1]) {
      TrimmedEnds(s[..|s| - 1]);
    }
  }

  lemma {:induction false} TrimmedStarts(s: string)
    ensures TrimStart(s) == "" || !IsSpace(TrimStart(s)[0])
    decreases |s|
  {
    if s != "" && IsSpace(s[0]) {
      TrimmedStarts(s[1..]);
    }
  }

  lemma TrimIsIdempotent(s: string)
    ensures Trim(Trim(s)) == Trim(s)
  {
    TrimmedStarts(s);
    TrimmedEnds(TrimStart(s));
  }

  /** Padding does not make another key, and a padded nothing is nothing. */
  lemma KeysIgnorePadding(rule: string, agent: string, scope: string)
    ensures KeyOf(rule, Some(Trim(agent)), Some(Trim(scope))) == KeyOf(rule, Some(agent), Some(scope))
    ensures Trim(scope) == "" ==> KeyOf(rule, Some(agent), Some(scope)) == KeyOf(rule, Some(agent), None)
  {
    TrimIsIdempotent(agent);
    TrimIsIdempotent(scope);
    assert Trim("") == "";
  }

  // ----- what findings show -----------------------------------------------------------------

  /** A finding with the agent and scope of the instance it is about, empty if there is none. */
  datatype Finding = Finding(rule: string, agent: string, scope: string, severity: string)

  function Coalesce<T>(a: Option<T>, b: Option<T>, c: Option<T>): Option<T> {
    if a.Some? then a else if b.Some? then b else c
  }

  function OverrideAt(rows: map<Key, Row>, k: Key): Option<string> {
    if k in rows && rows[k].severity.Some? then rows[k].severity else None
  }

  function ReasonAt(rows: map<Key, Row>, k: Key): Option<string> {
    if k in rows && rows[k].reason.Some? then rows[k].reason else None
  }

  function NoteAt(rows: map<Key, Row>, k: Key): Option<string> {
    if k in rows && rows[k].reason.Some? then rows[k].note else None
  }

  function Exact(f: Finding): Key { Key(f.rule, f.agent, f.scope) }

  function AgentWide(f: Finding): Key { Key(f.rule, f.agent, "") }

  function RuleWide(f: Finding): Key { Key(f.rule, "", "") }

  function ShownOverride(rows: map<Key, Row>, f: Finding): Option<string> {
    Coalesce(OverrideAt(rows, Exact(f)), OverrideAt(rows, AgentWide(f)), OverrideAt(rows, RuleWide(f)))
  }

  function EffectiveSeverity(rows: map<Key, Row>, f: Finding): string {
    ShownOverride(rows, f).GetOr(f.severity)
  }

  function ShownReason(rows: map<Key, Row>, f: Finding): Option<string> {
    Coalesce(ReasonAt(rows, Exact(f)), ReasonAt(rows, AgentWide(f)), ReasonAt(rows, RuleWide(f)))
  }

  function ShownNote(rows: map<Key, Row>, f: Finding): Option<string> {
    Coalesce(NoteAt(rows, Exact(f)), NoteAt(rows, AgentWide(f)), NoteAt(rows, RuleWide(f)))
  }

  /**
    A key applies to a finding when each part of it is that of the finding, or everything from some part on is open.
   */
  predicate Applies(k: Key, f: Finding) {
    k.rule == f.rule &&
      ((k.agent == f.agent && (k.scope == f.scope || k.scope == "")) || (k.agent == "" && k.scope == ""))
  }

  /** How many parts a key fixes. */
  function Specificity(k: Key): nat {
    (if k.agent == "" then 0 else 1) + (if k.scope == "" then 0 else 1)
  }

  /** The most specific applicable key of a map. */
  ghost predicate Governs<T>(m: map<Key, T>, f: Finding, k: Key) {
    k in m && Applies(k, f) && forall other :: other in m && Applies(other, f) ==> Specificity(other) <= Specificity(k)
  }

  lemma ApplicableKeys(k: Key, f: Finding)
    ensures Applies(k, f) <==> k == Exact(f) || k == AgentWide(f) || k == RuleWide(f)
  {
  }

  /** The effective severity is that of the most specific applicable override, or the finding's own. */
  lemma SeverityIsGoverned(rows: map<Key, Row>, f: Finding, k: Key)
    ensures Governs(OverridesIn(rows), f, k) ==> EffectiveSeverity(rows, f) == OverridesIn(rows)[k]
    ensures (forall other :: other in OverridesIn(rows) ==> !Applies(other, f)) <==> ShownOverride(rows, f) == None
    ensures ShownOverride(rows, f) == None ==> EffectiveSeverity(rows, f) == f.severity
  {
    var m := OverridesIn(rows);
    ApplicableKeys(k, f);
    assert forall t :: OverrideAt(rows, t).Some? <==> t in m;
    assert Applies(Exact(f), f) && Applies(AgentWide(f), f) && Applies(RuleWide(f), f);
  }

  /** Setting an override changes a finding exactly when it applies and nothing more specific does. */
  lemma OverrideReaches(rows: map<Key, Row>, after: map<Key, Row>, f: Finding, k: Key, severity: string)
    requires OverridesIn(after) == OverridesIn(rows)[k := severity]
    ensures EffectiveSeverity(after, f) ==
            if Applies(k, f) &&
              (forall other :: other in OverridesIn(rows) && Applies(other, f) ==> Specificity(other) <= Specificity(k))
            then severity else EffectiveSeverity(rows, f)
  {
    var m, n := OverridesIn(rows), OverridesIn(after);
    ApplicableKeys(k, f);
    forall t ensures OverrideAt(rows, t) == (if t in m then Some(m[t]) else None)
    ensures OverrideAt(after, t) == (if t in n then Some(n[t]) else None) {
    }
    assert Applies(Exact(f), f) && Applies(AgentWide(f), f) && Applies(RuleWide(f), f);
    assert forall other :: other in m && Applies(other, f) ==>
      other == Exact(f) || other == AgentWide(f) || other == RuleWide(f);
  }

  /** Clearing an override lets the next less specific one, or the finding's own severity, show. */
  lemma ClearingReveals(rows: map<Key, Row>, after: map<Key, Row>, f: Finding, k: Key)
    requires OverridesIn(after) == OverridesIn(rows) - {k}
    ensures !Governs(OverridesIn(rows), f, k) ==> EffectiveSeverity(after, f) == EffectiveSeverity(rows, f)
    ensures Governs(OverridesIn(rows), f, k) ==>
              && (forall next :: Governs(OverridesIn(after), f, next) ==>
                    Specificity(next) < Specificity(k) && EffectiveSeverity(after, f) == OverridesIn(rows)[next])
              && ((forall other :: other in OverridesIn(after) ==> !Applies(other, f)) ==>
                  EffectiveSeverity(after, f) == f.severity)
  {
    var m, n := OverridesIn(rows), OverridesIn(after);
    ApplicableKeys(k, f);
    forall t ensures OverrideAt(rows, t) == (if t in m then Some(m[t]) else None)
    ensures OverrideAt(after, t) == (if t in n then Some(n[t]) else None) {
    }
    assert Applies(Exact(f), f) && Applies(AgentWide(f), f) && Applies(RuleWide(f), f);
    forall next | Governs(n, f, next) ensures EffectiveSeverity(after, f) == n[next] {
      SeverityIsGoverned(after, f, next);
      ApplicableKeys(next, f);
    }
    SeverityIsGoverned(after, f, k);
  }

  /** A finding is suppressed exactly when a suppression applies, with the reason of the most specific one. */
  lemma ReasonIsGoverned(rows: map<Key, Row>, f: Finding, k: Key)
    ensures Governs(SuppressionsIn(rows), f, k) ==> ShownReason(rows, f) == Some(SuppressionsIn(rows)[k].reason)
    ensures (forall other :: other in SuppressionsIn(rows) ==> !Applies(other, f)) <==> ShownReason(rows, f) == None
  {
    var m := SuppressionsIn(rows);
    ApplicableKeys(k, f);
    assert forall t :: ReasonAt(rows, t).Some? <==> t in m;
    assert Applies(Exact(f), f) && Applies(AgentWide(f), f) && Applies(RuleWide(f), f);
  }

  /**
   * The note beside the reason is that of the same suppression unless that one has no note while a broader
   * applicable suppression has one; then the broader note is shown.
   */
  lemma NoteFallsThrough(rows: map<Key, Row>, f: Finding, k: Key)
    requires Governs(SuppressionsIn(rows), f, k)
    ensures
      var m := SuppressionsIn(rows);
      (ShownNote(rows, f) != m[k].note <==>
        m[k].note == None && exists other :: other in m && Applies(other, f) && m[other].note.Some?)
  {
    var m := SuppressionsIn(rows);
    ApplicableKeys(k, f);
    forall t ensures NoteAt(rows, t) == (if t in m then m[t].note else None) {}
    assert Applies(Exact(f), f) && Applies(AgentWide(f), f) && Applies(RuleWide(f), f);
    assert forall other :: other in m && Applies(other, f) ==>
      other == Exact(f) || other == AgentWide(f) || other == RuleWide(f);
  }

  /** A suppression of one agent without a note shows the note of the suppression of the whole rule. */
  lemma NoteOfAnotherReason(f: Finding, narrow: string, broad: string, note: string)
    requires f.agent != ""
    ensures
      var rows := map[AgentWide(f) := Row(None, Some(narrow), None, 0),
        RuleWide(f) := Row(None, Some(broad), Some(note), 0)];
      ValidTable(rows) && ShownReason(rows, f) == Some(narrow) && ShownNote(rows, f) == Some(note)
  {
    assert AgentWide(f) != RuleWide(f);
  }

  /** A key that fixes a scope but no agent never reaches a finding that has an agent. */
  lemma ScopeAloneIsInert(rows: map<Key, Row>, k: Key, row: Row, f: Finding)
    requires k.agent == "" && k.scope != "" && f.agent != ""
    ensures EffectiveSeverity(rows[k := row], f) == EffectiveSeverity(rows, f)
    ensures ShownReason(rows[k := row], f) == ShownReason(rows, f) && ShownNote(rows[k := row], f) == ShownNote(rows, f)
  {
    ApplicableKeys(k, f);
  }
}
