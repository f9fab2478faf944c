/**
 * Review status of findings across refreshes (crates/catalog/src/refresh.rs 4-102;
 * crates/catalog/src/lib.rs 631-671; crates/catalog/src/mapping.rs 322-338; crates/catalog/src/queries.rs 436-442).
 */
module FindingTriage {
  import opened Common

  const FIELD: char := '\U{1F}'
  const RECORD: char := '\U{1E}'

  datatype Instance = Instance(definition: string, fingerprint: string)

  datatype Draft = Draft(
    id: string, instance: Option<string>, definition: Option<string>, rule: string, severity: string,
    message: string, suggestion: Option<string>)

  datatype FindingRow = FindingRow(draft: Draft, triageKey: string, triageContext: string)

  datatype Triage = Triage(status: string, note: Option<string>, updatedAt: int)

  datatype TriageRow = TriageRow(context: string, triage: Triage)

  datatype CatalogError = ConstraintViolated | CommitFailed

  // ----- identities -------------------------------------------------------------------------

  /**
    What a review is about: the texts of a finding, absent ones empty, and the instances concerned with their
    fingerprints.
   */
  datatype Identity = Identity(
    instance: string, definition: string, rule: string, message: string, suggestion: string,
    members: map<string, string>)

  function MembersOf(instances: map<string, Instance>, d: Draft): map<string, string> {
    if d.definition.Some? then
      map id | id in instances && instances[id].definition == d.definition.value :: instances[id].fingerprint
    else if d.instance.Some? && d.instance.value in instances then
      map[d.instance.value := instances[d.instance.value].fingerprint]
    else map[]
  }

  function IdentityOf(instances: map<string, Instance>, d: Draft): Identity {
    Identity(
      d.instance.GetOr(""), d.definition.GetOr(""), d.rule, d.message, d.suggestion.GetOr(""), MembersOf(instances, d))
  }

  // ----- keys and contexts ------------------------------------------------------------------

  predicate IsLeast(id: string, ids: set<string>) {
    id in ids && forall other :: other in ids ==> other == id || TextLess(id, other)
  }

  lemma {:induction false} LeastExists(ids: set<string>)
    requires ids != {}
    ensures exists id :: IsLeast(id, ids)
  {
    var x :| x in ids;
    if ids == {x} {
      assert IsLeast(x, ids);
    } else {
      LeastExists(ids - {x});
      var y :| IsLeast(y, ids - {x});
      TextOrder(x, y);
      if TextLess(x, y) {
        forall other | other in ids ensures other == x || TextLess(x, other) {
          if other != x && other != y {
            TextTransitive(x, y, other);
          }
        }
        assert IsLeast(x, ids);
      } else {
        assert IsLeast(y, ids);
      }
    }
  }

  function Least(ids: set<string>): (id: string)
    requires ids != {}
    ensures IsLeast(id, ids)
  {
    LeastExists(ids);
    assert forall a, b :: IsLeast(a, ids) && IsLeast(b, ids) ==> a == b by {
      forall a, b | IsLeast(a, ids) && IsLeast(b, ids) ensures a == b {
        TextOrder(a, b);
      }
    }
    var id :| IsLeast(id, ids);
    id
  }

  /** The members in the order of their ids. */
  function Ordered(members: map<string, string>): seq<(string, string)>
    decreases |members|
  {
    if members == map[] then []
    else
      var id := Least(members.Keys);
      [(id, members[id])] + Ordered(members - {id})
  }

  function Joined(members: seq<(string, string)>): string {
    if members == [] then ""
    else if |members| == 1 then members[0].0 + [FIELD] + members[0].1
    else members[0].0 + [FIELD] + members[0].1 + [RECORD] + Joined(members[1..])
  }

  function ContextOf(x: Identity, hash: string -> string): string {
    hash(Joined(Ordered(x.members)))
  }

  function KeyOf(x: Identity, hash: string -> string): string {
    var fromRule := x.rule + [FIELD] + (x.message + [FIELD] + (x.suggestion + [FIELD] + ContextOf(x, hash)));
    hash(x.instance + [FIELD] + (x.definition + [FIELD] + fromRule))
  }

  /** No text but the message, the only free one, contains a separator. */
  ghost predicate Plain(x: Identity) {
    && FIELD !in x.instance && FIELD !in x.definition && FIELD !in x.rule && FIELD !in x.suggestion
    && forall id :: id in x.members ==> PlainMember(id, x.members[id])
  }

  ghost predicate PlainMember(id: string, fingerprint: string) {
    FIELD !in id && RECORD !in id && FIELD !in fingerprint && RECORD !in fingerprint
  }

  lemma {:induction false} OrderedMembers(members: map<string, string>)
    ensures |Ordered(members)| == |members|
    ensures forall p :: p in Ordered(members) <==> p.0 in members && members[p.0] == p.1
    decreases |members|
  {
    if members != map[] {
      var id := Least(members.Keys);
      OrderedMembers(members - {id});
      assert |members - {id}| == |members| - 1 by {
        assert (members - {id}).Keys == members.Keys - {id};
      }
    }
  }

  lemma {:induction false} JoinIsInjective(a: seq<(string, string)>, b: seq<(string, string)>)
    requires forall p :: p in a || p in b ==> PlainMember(p.0, p.1)
    requires Joined(a) == Joined(b)
    ensures a == b
  {
    if a == [] || b == [] {
      if a != [] { NotEmpty(a); }
      if b != [] { NotEmpty(b); }
    } else {
      FirstRecord(a);
      FirstRecord(b);
      var ra, rb := a[0].0 + [FIELD] + a[0].1, b[0].0 + [FIELD] + b[0].1;
      MoreRecords(a);
      MoreRecords(b);
      if |a| > 1 && |b| > 1 {
        FieldsDetermined(ra, Joined(a[1..]), rb, Joined(b[1..]), RECORD);
        JoinIsInjective(a[1..], b[1..]);
      }
      FieldsDetermined(a[0].0, a[0].1, b[0].0, b[0].1, FIELD);
      assert a == [a[0]] + a[1..] && b == [b[0]] + b[1..];
    }
  }

  lemma NotEmpty(a: seq<(string, string)>)
    requires a != []
    ensures Joined(a) != ""
  {
  }

  lemma MoreRecords(a: seq<(string, string)>)
    ensures |a| > 1 ==> RECORD in Joined(a)
  {
    if |a| > 1 {
      var first := a[0].0 + [FIELD] + a[0].1;
      assert Joined(a) == first + [RECORD] + Joined(a[1..]);
      assert Joined(a)[|first|] == RECORD;
    }
  }

  lemma FirstRecord(a: seq<(string, string)>)
    requires a != [] && PlainMember(a[0].0, a[0].1)
    ensures RECORD !in a[0].0 + [FIELD] + a[0].1
  {
  }

  lemma ContextIdentifiesMembers(x: Identity, y: Identity, hash: string -> string)
    requires CollisionFree(hash) && Plain(x) && Plain(y)
    ensures ContextOf(x, hash) == ContextOf(y, hash) <==> x.members == y.members
  {
    OrderedMembers(x.members);
    OrderedMembers(y.members);
    if ContextOf(x, hash) == ContextOf(y, hash) {
      var a, b := Ordered(x.members), Ordered(y.members);
      JoinIsInjective(a, b);
      forall id ensures id in x.members <==> id in y.members {
        if id in x.members { assert (id, x.members[id]) in b; }
        if id in y.members { assert (id, y.members[id]) in a; }
      }
      forall id | id in x.members ensures x.members[id] == y.members[id] {
        assert (id, x.members[id]) in b;
      }
    }
  }

  /** The fields from the message on, which are read from the end. */
  lemma MessageDetermined(m: string, s: string, c: string, n: string, t: string, d: string)
    requires m + [FIELD] + (s + [FIELD] + c) == n + [FIELD] + (t + [FIELD] + d)
    requires FIELD !in s && FIELD !in t && FIELD !in c && FIELD !in d
    ensures m == n && s == t && c == d
  {
    assert m + [FIELD] + (s + [FIELD] + c) == (m + [FIELD] + s) + [FIELD] + c;
    assert n + [FIELD] + (t + [FIELD] + d) == (n + [FIELD] + t) + [FIELD] + d;
    LastFieldDetermined(m + [FIELD] + s, c, n + [FIELD] + t, d, FIELD);
    LastFieldDetermined(m, s, n, t, FIELD);
  }

  /** Keys tell identities apart, whatever the message: it lies between fields that are read from either end. */
  lemma KeyIdentifies(x: Identity, y: Identity, hash: string -> string)
    requires IdealHash(hash) && Plain(x) && Plain(y)
    ensures KeyOf(x, hash) == KeyOf(y, hash) <==> x == y
    ensures KeyOf(x, hash) == KeyOf(y, hash) ==> ContextOf(x, hash) == ContextOf(y, hash)
  {
    if KeyOf(x, hash) == KeyOf(y, hash) {
      var cx, cy := ContextOf(x, hash), ContextOf(y, hash);
      var mx := x.message + [FIELD] + (x.suggestion + [FIELD] + cx);
      var my := y.message + [FIELD] + (y.suggestion + [FIELD] + cy);
      var rx, ry := x.rule + [FIELD] + mx, y.rule + [FIELD] + my;
      FieldsDetermined(x.instance, x.definition + [FIELD] + rx, y.instance, y.definition + [FIELD] + ry, FIELD);
      FieldsDetermined(x.definition, rx, y.definition, ry, FIELD);
      FieldsDetermined(x.rule, mx, y.rule, my, FIELD);
      assert IsHex(cx) && IsHex(cy);
      MessageDetermined(x.message, x.suggestion, cx, y.message, y.suggestion, cy);
      ContextIdentifiesMembers(x, y, hash);
    }
  }

  // ----- the catalog ------------------------------------------------------------------------

  predicate ValidStatus(status: string) {
    status in {"reviewed", "ignored", "needs-follow-up"}
  }

  ghost predicate DistinctDraftIds(drafts: seq<Draft>) {
    forall i, j :: 0 <= i < j < |drafts| ==> drafts[i].id != drafts[j].id
  }

  function RowFor(instances: map<string, Instance>, hash: string -> string, d: Draft): FindingRow {
    FindingRow(d, KeyOf(IdentityOf(instances, d), hash), ContextOf(IdentityOf(instances, d), hash))
  }

  function RowsFor(instances: map<string, Instance>, hash: string -> string, drafts: seq<Draft>): seq<FindingRow> {
    seq(|drafts|, i requires 0 <= i < |drafts| => RowFor(instances, hash, drafts[i]))
  }

  lemma DistinctNext(drafts: seq<Draft>, i: nat)
    requires i < |drafts| && DistinctDraftIds(drafts[..i])
    ensures DistinctDraftIds(drafts[..i + 1]) <==> forall k :: 0 <= k < i ==> drafts[k].id != drafts[i].id
  {
    var shorter, longer := drafts[..i], drafts[..i + 1];
    assert longer == shorter + [drafts[i]];
    if k :| 0 <= k < i && drafts[k].id == drafts[i].id {
      assert longer[k].id == longer[i].id;
    }
  }

  /** A row is refused iff an earlier draft has its id. */
  lemma NextDraft(instances: map<string, Instance>, hash: string -> string, drafts: seq<Draft>, i: nat)
    requires i < |drafts| && DistinctDraftIds(drafts[..i])
    ensures DistinctDraftIds(drafts[..i + 1]) <==> IsFree(RowsFor(instances, hash, drafts[..i]), drafts[i].id)
  {
    DistinctNext(drafts, i);
    RowIds(instances, hash, drafts, i, drafts[i].id);
  }

  predicate IsFree(rows: seq<FindingRow>, id: string) {
    forall k :: 0 <= k < |rows| ==> rows[k].draft.id != id
  }

  lemma RowIds(instances: map<string, Instance>, hash: string -> string, drafts: seq<Draft>, i: nat, id: string)
    requires i <= |drafts|
    ensures IsFree(RowsFor(instances, hash, drafts[..i]), id) <==> forall k :: 0 <= k < i ==> drafts[k].id != id
  {
    var rows := RowsFor(instances, hash, drafts[..i]);
    forall k | 0 <= k < i ensures rows[k].draft.id == drafts[k].id {
      assert drafts[..i][k] == drafts[k];
    }
  }

  lemma NextRow(instances: map<string, Instance>, hash: string -> string, drafts: seq<Draft>, i: nat)
    requires i < |drafts|
    ensures RowsFor(instances, hash, drafts[..i + 1]) ==
            RowsFor(instances, hash, drafts[..i]) + [RowFor(instances, hash, drafts[i])]
  {
    assert drafts[..i + 1] == drafts[..i] + [drafts[i]];
    RowsNext(instances, hash, drafts[..i], drafts[i]);
  }

  lemma RowsNext(instances: map<string, Instance>, hash: string -> string, drafts: seq<Draft>, d: Draft)
    ensures RowsFor(instances, hash, drafts + [d]) == RowsFor(instances, hash, drafts) + [RowFor(instances, hash, d)]
  {
  }

  lemma DistinctPrefix(drafts: seq<Draft>, n: nat)
    requires n <= |drafts|
    ensures DistinctDraftIds(drafts) ==> DistinctDraftIds(drafts[..n])
  {
  }

  /** What a finding shows: `LEFT JOIN` on key and context. */
  function Shown(triage: map<string, TriageRow>, row: FindingRow): Option<Triage> {
    if row.triageKey in triage && triage[row.triageKey].context == row.triageContext then
      Some(triage[row.triageKey].triage)
    else None
  }

  function ShownStatus(triage: map<string, TriageRow>, row: FindingRow): string {
    match Shown(triage, row) case Some(t) => t.status case None => "open"
  }

  function ContextAt(findings: seq<FindingRow>, key: string): (r: Option<string>)
    ensures r.None? <==> forall row :: row in findings ==> row.triageKey != key
    ensures r.Some? ==> exists row :: row in findings && row.triageKey == key && row.triageContext == r.value
  {
    if findings == [] then None
    else if findings[0].triageKey == key then Some(findings[0].triageContext)
    else ContextAt(findings[1..], key)
  }

  class Catalog {
    const hash: string -> string
    var instances: map<string, Instance>
    var findings: seq<FindingRow>
    var triage: map<string, TriageRow>

    constructor (h: string -> string)
      ensures hash == h && instances == map[] && findings == [] && triage == map[]
    {
      hash := h;
      instances, findings, triage := map[], [], map[];
    }

    method InsertFinding(row: FindingRow) returns (ok: bool)
      modifies this`findings
      ensures ok <==> IsFree(old(findings), row.draft.id)
      ensures findings == if ok then old(findings) + [row] else old(findings)
    {
      for k := 0 to |findings|
        invariant findings == old(findings)
        invariant forall j :: 0 <= j < k ==> findings[j].draft.id != row.draft.id
      {
        if findings[k].draft.id == row.draft.id {
          return false;
        }
      }
      findings := findings + [row];
      ok := true;
    }

    /** Delete all findings and insert the new ones, all or nothing. */
    method RefreshRuleFindings(drafts: seq<Draft>, commits: bool) returns (r: Result<(), CatalogError>)
      modifies this`findings
      ensures r.Ok? <==> DistinctDraftIds(drafts) && commits
      ensures findings == if r.Ok? then RowsFor(instances, hash, drafts) else old(findings)
    {
      var begun := findings;
      findings := [];
      for i := 0 to |drafts|
        invariant findings == RowsFor(instances, hash, drafts[..i]) && DistinctDraftIds(drafts[..i])
      {
        NextDraft(instances, hash, drafts, i);
        NextRow(instances, hash, drafts, i);
        var ok := InsertFinding(RowFor(instances, hash, drafts[i]));
        if !ok {
          DistinctPrefix(drafts, i + 1);
          findings := begun;
          return Err(ConstraintViolated);
        }
      }
      assert drafts[..|drafts|] == drafts;
      if !commits {
        findings := begun;
        return Err(CommitFailed);
      }
      r := Ok(());
    }

    /** Only current findings can be reviewed; the previous review of the same key is replaced. */
    method SetFindingTriage(
      key: string, status: string, note: Option<string>, now: int)
      returns (r: Result<Option<TriageRow>, CatalogError>)
      modifies this`triage
      ensures ContextAt(findings, key).None? ==> r == Ok(None) && triage == old(triage)
      ensures ContextAt(findings, key).Some? && !ValidStatus(status) ==>
              r == Err(ConstraintViolated) && triage == old(triage)
      ensures ContextAt(findings, key).Some? && ValidStatus(status) ==>
                && r == Ok(Some(TriageRow(ContextAt(findings, key).value, Triage(status, note, now))))
                && triage == old(triage)[key := r.value.value]
    {
      var context := ContextAt(findings, key);
      if context.None? {
        return Ok(None);
      }
      if !ValidStatus(status) {
        return Err(ConstraintViolated);
      }
      var row := TriageRow(context.value, Triage(status, note, now));
      triage := triage[key := row];
      r := Ok(Some(row));
    }

    method ClearFindingTriage(key: string) returns (cleared: bool)
      modifies this`triage
      ensures cleared <==> key in old(triage)
      ensures triage == old(triage) - {key}
    {
      cleared := key in triage;
      triage := triage - {key};
    }

    /** A run of the catalog refines the review of identities. */
    method Replay(history: History)
      requires IdealHash(hash) && PlainHistory(history)
      requires instances == map[] && findings == [] && triage == map[]
      modifies this
      ensures instances == InstancesAfter(history) && Refines(history, hash, findings, triage)
    {
      if history.Start? {
        NothingReviewed(hash);
      } else {
        var earlier, step := history.earlier, history.step;
        Replay(earlier);
        match step {
          case Scan(now) =>
            instances := now;
            SameReviews(earlier, history, hash, findings, triage);
          case Refresh(drafts, commits) =>
            ghost var before := findings;
            var _ := RefreshRuleFindings(drafts, commits);
            RefreshRefines(history, hash, before, findings, triage);
          case Review(x, status, note, now) =>
            ghost var before := triage;
            SettableIffCurrent(earlier, hash, findings, triage, x);
            var _ := SetFindingTriage(KeyOf(x, hash), status, note, now);
            ReviewRefines(history, hash, findings, before, triage);
          case Clear(x) =>
            ghost var before := triage;
            var _ := ClearFindingTriage(KeyOf(x, hash));
            ReviewRefines(history, hash, findings, before, triage);
        }
      }
    }
  }

  // ----- runs -------------------------------------------------------------------------------

  /** Scans replace the instances; reviews name the identity whose key the client sends. */
  datatype Step =
    | Scan(instances: map<string, Instance>)
    | Refresh(drafts: seq<Draft>, commits: bool)
    | Review(subject: Identity, status: string, note: Option<string>, at: int)
    | Clear(subject: Identity)

  datatype History = Start | Then(earlier: History, step: Step)

  ghost function InstancesAfter(h: History): map<string, Instance> {
    match h
    case Start => map[]
    case Then(earlier, Scan(instances)) => instances
    case Then(earlier, _) => InstancesAfter(earlier)
  }

  /** The identities of the current findings: those of the last refresh that succeeded. */
  ghost function Current(h: History): seq<Identity> {
    match h
    case Start => []
    case Then(earlier, Refresh(drafts, commits)) =>
      if DistinctDraftIds(drafts) && commits then
        seq(|drafts|, i requires 0 <= i < |drafts| => IdentityOf(InstancesAfter(earlier), drafts[i]))
      else Current(earlier)
    case Then(earlier, _) => Current(earlier)
  }

  /** The last review of an identity that was current at the time and is not cleared since. */
  ghost function LastReview(h: History, x: Identity): Option<Triage> {
    match h
    case Start => None
    case Then(earlier, Review(subject, status, note, at)) =>
      if subject == x && x in Current(earlier) && ValidStatus(status) then Some(Triage(status, note, at))
      else LastReview(earlier, x)
    case Then(earlier, Clear(subject)) => if subject == x then None else LastReview(earlier, x)
    case Then(earlier, _) => LastReview(earlier, x)
  }

  ghost predicate PlainHistory(h: History) {
    match h
    case Start => true
    case Then(earlier, Refresh(drafts, _)) =>
      PlainHistory(earlier) && forall d :: d in drafts ==> Plain(IdentityOf(InstancesAfter(earlier), d))
    case Then(earlier, Review(subject, _, _, _)) => PlainHistory(earlier) && Plain(subject)
    case Then(earlier, Clear(subject)) => PlainHistory(earlier) && Plain(subject)
    case Then(earlier, _) => PlainHistory(earlier)
  }

  ghost function ReviewRow(h: History, hash: string -> string, x: Identity): Option<TriageRow> {
    match LastReview(h, x) case Some(t) => Some(TriageRow(ContextOf(x, hash), t)) case None => None
  }

  /**
    The findings are those of the current identities, and the reviews are stored under the keys of their identities.
   */
  ghost predicate Refines(
    h: History, hash: string -> string, findings: seq<FindingRow>, triage: map<string, TriageRow>)
  {
    && |findings| == |Current(h)|
    && (forall i :: 0 <= i < |findings| ==>
          && Plain(Current(h)[i])
          && findings[i].triageKey == KeyOf(Current(h)[i], hash)
          && findings[i].triageContext == ContextOf(Current(h)[i], hash))
    && (forall x :: Plain(x) ==> StoredAt(triage, KeyOf(x, hash)) == ReviewRow(h, hash, x))
  }

  ghost function StoredAt(triage: map<string, TriageRow>, key: string): Option<TriageRow> {
    if key in triage then Some(triage[key]) else None
  }

  lemma NothingReviewed(hash: string -> string)
    ensures Refines(Start, hash, [], map[])
  {
  }

  lemma SameReviews(
    h: History, later: History, hash: string -> string, findings: seq<FindingRow>, triage: map<string, TriageRow>)
    requires Refines(h, hash, findings, triage)
    requires later.Then? && later.earlier == h && later.step.Scan?
    ensures Refines(later, hash, findings, triage)
  {
    assert Current(later) == Current(h);
    forall x ensures ReviewRow(later, hash, x) == ReviewRow(h, hash, x) {
      assert LastReview(later, x) == LastReview(h, x);
    }
  }

  lemma RefreshRefines(
    later: History, hash: string -> string, before: seq<FindingRow>, findings: seq<FindingRow>,
    triage: map<string, TriageRow>)
    requires later.Then? && later.step.Refresh? && PlainHistory(later)
    requires Refines(later.earlier, hash, before, triage)
    requires findings == if DistinctDraftIds(later.step.drafts) && later.step.commits
                         then RowsFor(InstancesAfter(later.earlier), hash, later.step.drafts) else before
    ensures Refines(later, hash, findings, triage)
  {
    forall x ensures ReviewRow(later, hash, x) == ReviewRow(later.earlier, hash, x) {
      assert LastReview(later, x) == LastReview(later.earlier, x);
    }
  }

  lemma SettableIffCurrent(
    h: History, hash: string -> string, findings: seq<FindingRow>, triage: map<string, TriageRow>, x: Identity)
    requires IdealHash(hash) && Refines(h, hash, findings, triage) && Plain(x)
    ensures ContextAt(findings, KeyOf(x, hash)) == if x in Current(h) then Some(ContextOf(x, hash)) else None
  {
    forall i | 0 <= i < |findings|
      ensures findings[i].triageKey == KeyOf(x, hash) <==> Current(h)[i] == x
      ensures Current(h)[i] == x ==> findings[i].triageContext == ContextOf(x, hash)
    {
      KeyIdentifies(Current(h)[i], x, hash);
    }
    if x in Current(h) {
      var i :| 0 <= i < |findings| && Current(h)[i] == x;
      assert findings[i] in findings;
    }
  }

  lemma ReviewRefines(
    later: History, hash: string -> string, findings: seq<FindingRow>, before: map<string, TriageRow>,
    triage: map<string, TriageRow>)
    requires later.Then? && (later.step.Review? || later.step.Clear?) && PlainHistory(later)
    requires IdealHash(hash) && Refines(later.earlier, hash, findings, before)
    requires
      var x := later.step.subject;
      triage == if later.step.Clear? then before - {KeyOf(x, hash)}
                else if x in Current(later.earlier) && ValidStatus(later.step.status) then
                  before[KeyOf(x, hash) :=
                    TriageRow(ContextOf(x, hash), Triage(later.step.status, later.step.note, later.step.at))]
                else before
    ensures Refines(later, hash, findings, triage)
  {
    assert Current(later) == Current(later.earlier);
    forall y | Plain(y) ensures StoredAt(triage, KeyOf(y, hash)) == ReviewRow(later, hash, y) {
      KeyIdentifies(later.step.subject, y, hash);
      assert StoredAt(before, KeyOf(y, hash)) == ReviewRow(later.earlier, hash, y);
    }
  }

  // ----- consequences -----------------------------------------------------------------------

  /** After any run a finding shows the last review of its identity, or is open; its context never decides. */
  lemma ShownIsLastReview(
    h: History, hash: string -> string, findings: seq<FindingRow>, triage: map<string, TriageRow>, i: nat)
    requires Refines(h, hash, findings, triage) && i < |findings|
    ensures Shown(triage, findings[i]) == LastReview(h, Current(h)[i])
    ensures ShownStatus(triage, findings[i]) ==
            match LastReview(h, Current(h)[i]) case Some(t) => t.status case None => "open"
    ensures findings[i].triageKey in triage ==> triage[findings[i].triageKey].context == findings[i].triageContext
  {
    assert StoredAt(triage, KeyOf(Current(h)[i], hash)) == ReviewRow(h, hash, Current(h)[i]);
  }

  /** Scans and refreshes after a history. */
  ghost function Rescanned(h: History, steps: seq<Step>): History {
    if steps == [] then h else Then(Rescanned(h, steps[..|steps| - 1]), steps[|steps| - 1])
  }

  /** However members change and change back, reviews stay with their identities. */
  lemma {:induction false} ReviewsSurviveRescans(h: History, steps: seq<Step>, x: Identity)
    requires forall s: Step :: s in steps ==> s.Scan? || s.Refresh?
    ensures LastReview(Rescanned(h, steps), x) == LastReview(h, x)
  {
    if steps != [] {
      var last := steps[|steps| - 1];
      assert last in steps;
      ReviewsSurviveRescans(h, steps[..|steps| - 1], x);
    }
  }

  /** A finding whose members changed starts open unless that state of its members was reviewed before. */
  lemma ChangedMembersAreNewSubject(d: Draft, a: map<string, Instance>, b: map<string, Instance>, h: History)
    ensures IdentityOf(a, d) == IdentityOf(b, d) <==> MembersOf(a, d) == MembersOf(b, d)
    ensures MembersOf(a, d) != MembersOf(b, d) && LastReview(h, IdentityOf(b, d)) == None && b == InstancesAfter(h) ==>
              var later := Then(h, Refresh([d], true));
              Current(later) == [IdentityOf(b, d)] && LastReview(later, Current(later)[0]) == None
  {
  }
}
