/**
 * Scans of skill directories entering the table (crates/catalog/src/lib.rs 341-592; crates/catalog/src/mapping.rs 3-33;
 * crates/commands/src/lib.rs 502-538).
 */
module ScanUpdate {
  import opened Common
  import opened SkillTable

  // ----- paths ------------------------------------------------------------------------------

  function Segments(s: string): (r: seq<string>)
    ensures r != []
    decreases |s|
  {
    var i := IndexOf(s, '/');
    if i == |s| then [s] else [s[..i]] + Segments(s[i + 1..])
  }

  function Names(segments: seq<string>): seq<string> {
    if segments == [] then []
    else (if segments[0] == "" || segments[0] == "." then [] else [segments[0]]) + Names(segments[1..])
  }

  /** What a path starts with besides names: the root or a leading dot. */
  function Lead(path: string): seq<string> {
    if path != "" && path[0] == '/' then ["/"] else if Segments(path)[0] == "." then ["."] else []
  }

  /** The components of a path: a leading root or dot, then the names. */
  function Components(path: string): seq<string> {
    Lead(path) + Names(Segments(path))
  }

  /** `Path::starts_with`: whole components. */
  predicate Under(path: string, root: string) {
    Components(root) <= Components(path)
  }

  lemma {:induction false} IndexOfJoined(a: string, b: string)
    ensures IndexOf(a + "/" + b, '/') == IndexOf(a, '/')
  {
    var s := a + "/" + b;
    var i := IndexOf(a, '/');
    assert forall k :: 0 <= k < i ==> s[k] == a[k];
    assert s[i] == '/';
  }

  lemma FirstSegment(a: string, b: string)
    requires '/' !in a
    ensures Segments(a + "/" + b) == [a] + Segments(b)
  {
    IndexOfJoined(a, b);
    PartsOfJoined(a, b);
  }

  lemma PartsOfJoined(a: string, b: string)
    ensures (a + "/" + b)[..|a|] == a && (a + "/" + b)[|a| + 1..] == b
  {
  }

  lemma Reassociate(a: string, b: string, c: string)
    ensures a + "/" + b + "/" + c == a + "/" + (b + "/" + c)
  {
  }

  lemma SplitAtSlash(a: string, i: nat)
    requires i < |a| && a[i] == '/'
    ensures a == a[..i] + "/" + a[i + 1..]
  {
  }

  lemma {:induction false} SegmentsJoined(a: string, b: string)
    ensures Segments(a + "/" + b) == Segments(a) + Segments(b)
    decreases |a|
  {
    var i := IndexOf(a, '/');
    if i == |a| {
      FirstSegment(a, b);
    } else {
      var first, rest := a[..i], a[i + 1..];
      SplitAtSlash(a, i);
      Reassociate(first, rest, b);
      calc {
        Segments(a + "/" + b);
        Segments(first + "/" + (rest + "/" + b));
        { FirstSegment(first, rest + "/" + b); }
        [first] + Segments(rest + "/" + b);
        { SegmentsJoined(rest, b); }
        [first] + (Segments(rest) + Segments(b));
        [first] + Segments(rest) + Segments(b);
        { FirstSegment(first, rest); }
        Segments(a) + Segments(b);
      }
    }
  }

  lemma {:induction false} NamesJoined(a: seq<string>, b: seq<string>)
    ensures Names(a + b) == Names(a) + Names(b)
  {
    if a == [] {
      assert a + b == b;
    } else {
      var first := if a[0] == "" || a[0] == "." then [] else [a[0]];
      assert (a + b)[0] == a[0] && (a + b)[1..] == a[1..] + b;
      calc {
        Names(a + b);
        first + Names(a[1..] + b);
        { NamesJoined(a[1..], b); }
        first + (Names(a[1..]) + Names(b));
        first + Names(a[1..]) + Names(b);
      }
    }
  }

  lemma LeadOfJoined(root: string, rest: string)
    requires root != ""
    ensures Lead(root + "/" + rest) == Lead(root)
  {
    var joined := root + "/" + rest;
    assert joined[0] == root[0];
    SegmentsJoined(root, rest);
    FirstOfBoth(Segments(root), Segments(rest));
  }

  lemma FirstOfBoth(a: seq<string>, b: seq<string>)
    requires a != []
    ensures (a + b)[0] == a[0]
  {
  }

  lemma LongerList(a: seq<string>, b: seq<string>, c: seq<string>)
    ensures a + b <= a + (b + c)
  {
    assert a + (b + c) == a + b + c;
  }

  /** What is written below a directory is under it. */
  lemma JoinedIsUnder(root: string, rest: string)
    requires root != ""
    ensures Under(root + "/" + rest, root)
  {
    var joined := root + "/" + rest;
    var names, more := Names(Segments(root)), Names(Segments(rest));
    LeadOfJoined(root, rest);
    SegmentsJoined(root, rest);
    NamesJoined(Segments(root), Segments(rest));
    assert Names(Segments(joined)) == names + more;
    LongerList(Lead(root), names, more);
    assert Components(joined) == Lead(root) + (names + more);
  }

  // ----- upserts ----------------------------------------------------------------------------

  datatype Scanned = Scanned(id: string, row: Row)

  /** The table after one upsert: a row at the same place keeps its id and first sighting; a reused id fails. */
  function AfterUpsert(rows: map<string, Row>, x: Scanned): (r: Option<map<string, Row>>)
    requires UniquePlaces(rows)
    ensures r.Some? ==> UniquePlaces(r.value)
  {
    match HolderOf(rows, PlaceOf(x.row))
    case Some(id) => Some(rows[id := x.row.(firstSeen := rows[id].firstSeen)])
    case None => if x.id in rows then None else Some(rows[x.id := x.row])
  }

  /** The table after upserts one after the other, up to the first one that fails, and whether none did. */
  function AfterUpserts(rows: map<string, Row>, scanned: seq<Scanned>): (r: (map<string, Row>, bool))
    requires UniquePlaces(rows)
    ensures UniquePlaces(r.0)
  {
    if scanned == [] then (rows, true)
    else
      var (before, ok) := AfterUpserts(rows, scanned[..|scanned| - 1]);
      if !ok then (before, false)
      else
        match AfterUpsert(before, scanned[|scanned| - 1])
        case None => (before, false)
        case Some(after) => (after, true)
  }

  ghost predicate IsTaken(rows: map<string, Row>, place: Place) {
    exists id :: Holds(rows, place, id)
  }

  /** The k-th item is the first one at a place that the table does not have. */
  ghost predicate IsNewAt(rows: map<string, Row>, scanned: seq<Scanned>, k: nat)
    requires k < |scanned|
  {
    && !IsTaken(rows, PlaceOf(scanned[k].row))
    && (forall j :: 0 <= j < k ==> PlaceOf(scanned[j].row) != PlaceOf(scanned[k].row))
  }

  /** The ids that come with new places. */
  ghost function NewIds(rows: map<string, Row>, scanned: seq<Scanned>): set<string> {
    set k | 0 <= k < |scanned| && IsNewAt(rows, scanned, k) :: scanned[k].id
  }

  /** A new place comes with an id that neither the table nor an earlier new place has. */
  ghost predicate IsFreeAt(rows: map<string, Row>, scanned: seq<Scanned>, k: nat)
    requires k < |scanned|
  {
    IsNewAt(rows, scanned, k) ==> scanned[k].id !in rows && scanned[k].id !in NewIds(rows, scanned[..k])
  }

  ghost predicate NewIdsAreFree(rows: map<string, Row>, scanned: seq<Scanned>) {
    forall k :: 0 <= k < |scanned| ==> IsFreeAt(rows, scanned, k)
  }

  /** What is upserted when the statement at `failsAt`, if any, fails. */
  function Reached(scanned: seq<Scanned>, failsAt: Option<nat>): seq<Scanned> {
    if failsAt.Some? && failsAt.value < |scanned| then scanned[..failsAt.value] else scanned
  }

  ghost predicate IsPlaceOf(place: Place, scanned: seq<Scanned>) {
    exists k :: 0 <= k < |scanned| && PlaceOf(scanned[k].row) == place
  }

  ghost predicate LastAt(scanned: seq<Scanned>, k: nat) {
    k < |scanned| && forall l :: k < l < |scanned| ==> PlaceOf(scanned[l].row) != PlaceOf(scanned[k].row)
  }

  /** Ids, places and first sightings stay; only scanned places are touched; rows appear only there. */
  ghost predicate Absorbs(before: map<string, Row>, rows: map<string, Row>, scanned: seq<Scanned>) {
    && UniquePlaces(rows)
    && (forall id :: id in before ==>
        id in rows && PlaceOf(rows[id]) == PlaceOf(before[id]) && rows[id].firstSeen == before[id].firstSeen)
    && (forall id :: id in before && !IsPlaceOf(PlaceOf(before[id]), scanned) ==> rows[id] == before[id])
    && (forall id :: id in rows && id !in before ==> IsPlaceOf(PlaceOf(rows[id]), scanned))
  }

  /** Every scanned place has a row with what was scanned there last. */
  ghost predicate Recorded(rows: map<string, Row>, scanned: seq<Scanned>) {
    forall k :: 0 <= k < |scanned| && LastAt(scanned, k) ==> RecordedAt(rows, scanned[k].row)
  }

  ghost predicate RecordedAt(rows: map<string, Row>, row: Row) {
    exists id :: Holds(rows, PlaceOf(row), id) && rows[id] == row.(firstSeen := rows[id].firstSeen)
  }

  ghost predicate Absorbed(before: map<string, Row>, rows: map<string, Row>, scanned: seq<Scanned>) {
    Absorbs(before, rows, scanned) && Recorded(rows, scanned)
  }

  // ----- sweeps -----------------------------------------------------------------------------

  /** `context` is absent for sweeps of all projects, and otherwise the selected project, if any. */
  datatype Sweep = Sweep(
    agent: string, context: Option<Option<string>>, roots: Option<seq<(string, string)>>, seen: set<(string, string)>)

  type Canonicalize = string -> Option<string>

  predicate SameProject(canon: Canonicalize, a: string, b: string) {
    Components(a) == Components(b) || (canon(a).Some? && canon(a) == canon(b))
  }

  predicate MatchesProject(canon: Canonicalize, row: Row, context: Option<Option<string>>) {
    context.None? || row.scope != AGENT_PROJECT ||
    (row.projectRoot.Some? && context.value.Some? && SameProject(canon, row.projectRoot.value, context.value.value))
  }

  predicate UnderRoots(row: Row, roots: seq<(string, string)>) {
    exists k :: 0 <= k < |roots| && roots[k].0 == row.scope && Under(row.path, roots[k].1)
  }

  predicate Eligible(canon: Canonicalize, s: Sweep, row: Row) {
    && row.agent == s.agent && row.scope != TOOL_GLOBAL && row.state != MISSING
    && (row.scope, row.path) !in s.seen
    && MatchesProject(canon, row, s.context)
    && (s.roots.Some? ==> UnderRoots(row, s.roots.value))
  }

  ghost function EligibleIds(canon: Canonicalize, s: Sweep, rows: map<string, Row>): set<string> {
    set id | id in rows && Eligible(canon, s, rows[id])
  }

  ghost function Swept(canon: Canonicalize, s: Sweep, rows: map<string, Row>): map<string, Row> {
    map id | id in rows :: if Eligible(canon, s, rows[id]) then rows[id].(state := MISSING) else rows[id]
  }

  /** A sweep repeated finds nothing and changes nothing. */
  lemma SweepIsIdempotent(canon: Canonicalize, s: Sweep, rows: map<string, Row>)
    ensures EligibleIds(canon, s, Swept(canon, s, rows)) == {} &&
            Swept(canon, s, Swept(canon, s, rows)) == Swept(canon, s, rows)
  {
    var once := Swept(canon, s, rows);
    assert forall id :: id in once ==> !Eligible(canon, s, once[id]);
  }

  datatype Event = Event(instance: string, kind: string, at: int)

  function MissingEvents(events: seq<Event>, id: string): nat {
    if events == [] then 0
    else
      var last := events[|events| - 1];
      MissingEvents(events[..|events| - 1], id) + if last.instance == id && last.kind == MISSING then 1 else 0
  }

  /** The table before and after a committed sweep. */
  datatype Change = Change(before: map<string, Row>, after: map<string, Row>)

  ghost predicate GoesMissing(c: Change, id: string) {
    id in c.before && id in c.after && c.before[id].state != MISSING && c.after[id].state == MISSING
  }

  ghost function Transitions(sweeps: seq<Change>, id: string): nat {
    if sweeps == [] then 0
    else Transitions(sweeps[..|sweeps| - 1], id) + if GoesMissing(sweeps[|sweeps| - 1], id) then 1 else 0
  }

  datatype Report = Report(
    instances: seq<Scanned>, partialRoots: seq<string>, scopedPartialRoots: seq<(string, string)>,
    skippedRoots: seq<string>,
    scopedScannedRoots: seq<(string, string)>, budgetExhausted: bool)

  predicate Exact(report: Report) {
    report.partialRoots == [] && report.scopedPartialRoots == [] && report.skippedRoots == [] && !report.budgetExhausted
  }

  function Seen(scanned: seq<Scanned>): set<(string, string)> {
    set k | 0 <= k < |scanned| :: (scanned[k].row.scope, scanned[k].row.path)
  }

  datatype ScanError = Constraint | Database

  /** The sweep that a report allows, if any. */
  function SweepFor(agent: string, project: Option<string>, report: Report): Option<Sweep> {
    if Exact(report) then Some(Sweep(agent, Some(project), None, Seen(report.instances)))
    else if report.scopedScannedRoots != [] then
      Some(Sweep(agent, Some(project), Some(report.scopedScannedRoots), Seen(report.instances)))
    else None
  }

  class Catalog {
    var rows: map<string, Row>
    var events: seq<Event>
    ghost var sweeps: seq<Change>

    /** A row has as many missing events as sweeps that made it missing. */
    ghost predicate Valid()
      reads this
    {
      UniquePlaces(rows) && forall id :: MissingEvents(events, id) == Transitions(sweeps, id)
    }

    constructor ()
      ensures Valid() && rows == map[] && events == [] && sweeps == []
    {
      rows, events, sweeps := map[], [], [];
    }

    method UpsertSkillInstance(x: Scanned) returns (ok: bool)
      requires Valid()
      modifies this`rows
      ensures Valid() && (ok <==> AfterUpsert(old(rows), x).Some?)
      ensures rows == AfterUpsert(old(rows), x).GetOr(old(rows))
    {
      var holder := HolderOf(rows, PlaceOf(x.row));
      if holder.Some? {
        rows := rows[holder.value := x.row.(firstSeen := rows[holder.value].firstSeen)];
      } else if x.id in rows {
        return false;
      } else {
        rows := rows[x.id := x.row];
      }
      ok := true;
    }

    /** One after the other; a failure keeps the earlier ones. */
    method UpsertSkillInstances(scanned: seq<Scanned>, failsAt: Option<nat>) returns (r: Result<(), ScanError>)
      requires Valid()
      modifies this`rows
      ensures Valid() && rows == AfterUpserts(old(rows), Reached(scanned, failsAt)).0
      ensures Absorbs(old(rows), rows, Reached(scanned, failsAt))
      ensures r.Ok? ==> Recorded(rows, scanned)
      ensures r.Ok? <==> NewIdsAreFree(old(rows), scanned) && Reached(scanned, failsAt) == scanned
      ensures r == Err(Constraint) <==> !NewIdsAreFree(old(rows), Reached(scanned, failsAt))
    {
      UpsertsSucceedIff(rows, scanned);
      UpsertsSucceedIff(rows, Reached(scanned, failsAt));
      UpsertsAbsorb(rows, Reached(scanned, failsAt));
      r := UpsertEach(scanned, failsAt);
    }

    method UpsertEach(scanned: seq<Scanned>, failsAt: Option<nat>) returns (r: Result<(), ScanError>)
      requires Valid()
      modifies this`rows
      ensures Valid() && rows == AfterUpserts(old(rows), Reached(scanned, failsAt)).0
      ensures r.Ok? <==> AfterUpserts(old(rows), scanned).1 && Reached(scanned, failsAt) == scanned
      ensures r == Err(Constraint) <==> !AfterUpserts(old(rows), Reached(scanned, failsAt)).1
    {
      for k := 0 to |scanned|
        invariant Valid() && (rows, true) == AfterUpserts(old(rows), scanned[..k])
        invariant failsAt.Some? ==> failsAt.value >= k
      {
        if failsAt == Some(k) {
          return Err(Database);
        }
        NextUpsert(old(rows), scanned, k);
        var inserted := UpsertSkillInstance(scanned[k]);
        if !inserted {
          TakenStops(old(rows), scanned, failsAt, k);
          return Err(Constraint);
        }
      }
      assert scanned[..|scanned|] == scanned;
      r := Ok(());
    }

    method SelectToMark(canon: Canonicalize, s: Sweep, order: seq<string>) returns (toMark: seq<string>)
      requires Enumerates(order, rows.Keys)
      ensures Enumerates(toMark, EligibleIds(canon, s, rows))
    {
      toMark := [];
      for i := 0 to |order|
        invariant forall k, l :: 0 <= k < l < |toMark| ==> toMark[k] != toMark[l]
        invariant forall id :: id in toMark <==> id in order[..i] && id in rows && Eligible(canon, s, rows[id])
      {
        assert order[i] !in order[..i];
        assert order[..i + 1] == order[..i] + [order[i]];
        if Eligible(canon, s, rows[order[i]]) {
          toMark := toMark + [order[i]];
        }
      }
      assert order[..|order|] == order;
    }

    /** Marks the selected rows and records an event for each; a statement may fail halfway. */
    method MarkAll(toMark: seq<string>, now: int, failsAt: Option<nat>) returns (transitioned: nat, ok: bool)
      requires forall k, l :: 0 <= k < l < |toMark| ==> toMark[k] != toMark[l]
      requires forall id :: id in toMark ==> id in rows && rows[id].state != MISSING
      modifies this`rows, this`events
      ensures ok <==> failsAt.None? || failsAt.value >= |toMark|
      ensures ok ==> transitioned == |toMark| && rows == Marked(old(rows), toMark)
      ensures ok ==> events == old(events) + EventsFor(toMark, now)
    {
      transitioned := 0;
      for i := 0 to |toMark|
        invariant failsAt.Some? ==> failsAt.value >= i
        invariant transitioned == i
        invariant rows == Marked(old(rows), toMark[..i])
        invariant events == old(events) + EventsFor(toMark[..i], now)
      {
        var id := toMark[i];
        if failsAt == Some(i) {
          return transitioned, false;
        }
        assert id in toMark && id !in toMark[..i];
        MarkNext(old(rows), toMark, i, old(events), now);
        if rows[id].state == MISSING {
          continue;
        }
        rows := rows[id := rows[id].(state := MISSING)];
        events := events + [Event(id, MISSING, now)];
        transitioned := transitioned + 1;
      }
      assert toMark[..|toMark|] == toMark;
      ok := true;
    }

    /** The missing sweep in one transaction; a statement or the commit may fail. */
    method MarkMissing(canon: Canonicalize, s: Sweep, order: seq<string>, now: int, failsAt: Option<nat>, commits: bool)
      returns (r: Option<nat>)
      requires Valid() && Enumerates(order, rows.Keys)
      modifies this
      ensures Valid()
      ensures r.None? ==> rows == old(rows) && events == old(events) && sweeps == old(sweeps)
      ensures r.None? <==> !commits || (failsAt.Some? && failsAt.value < |EligibleIds(canon, s, old(rows))|)
      ensures r.Some? ==> rows == Swept(canon, s, old(rows)) && r.value == |EligibleIds(canon, s, old(rows))|
      ensures r.Some? ==> sweeps == old(sweeps) + [Change(old(rows), rows)]
      ensures r.Some? ==>
                exists marked ::
                  Enumerates(marked, EligibleIds(canon, s, old(rows))) &&
                  events == old(events) + EventsFor(marked, now)
    {
      var begunRows, begunEvents := rows, events;
      var toMark := SelectToMark(canon, s, order);
      CountEnumerated(toMark, EligibleIds(canon, s, rows));
      SelectedAreEligible(canon, s, rows, toMark);
      var transitioned, ok := MarkAll(toMark, now, failsAt);
      if !ok || !commits {
        rows, events := begunRows, begunEvents;
        return None;
      }
      MarkedIsSwept(canon, s, begunRows, toMark);
      sweeps := sweeps + [Change(begunRows, rows)];
      CountsAgree(canon, s, begunRows, old(sweeps), begunEvents, toMark, now);
      SweptKeepsPlaces(canon, s, begunRows);
      r := Some(transitioned);
    }

    /** Upserts what was scanned, then sweeps as far as the report is complete. */
    method UpdateFromScan(
      canon: Canonicalize, agent: string, project: Option<string>, report: Report,
      select: map<string, Row> -> seq<string>,
      now: int, stopsAt: Option<nat>, failsAt: Option<nat>, commits: bool)
      returns (r: Result<nat, ScanError>, ghost scanned: map<string, Row>)
      requires Valid() && forall table :: Enumerates(select(table), table.Keys)
      modifies this
      ensures Valid() && scanned == AfterUpserts(old(rows), Reached(report.instances, stopsAt)).0 &&
              Absorbs(old(rows), scanned, Reached(report.instances, stopsAt))
      ensures r == Err(Constraint) <==> !NewIdsAreFree(old(rows), Reached(report.instances, stopsAt))
      ensures r.Ok? ==> Reached(report.instances, stopsAt) == report.instances
      ensures r.Err? ==> rows == scanned && events == old(events) && sweeps == old(sweeps)
      ensures r.Ok? ==> Recorded(scanned, report.instances)
      ensures r.Ok? ==>
                match SweepFor(agent, project, report)
                case None => rows == scanned && r.value == 0 && events == old(events) && sweeps == old(sweeps)
                case Some(s) =>
                  && rows == Swept(canon, s, scanned) && r.value == |EligibleIds(canon, s, scanned)|
                  && sweeps == old(sweeps) + [Change(scanned, rows)]
                  && exists marked ::
                       Enumerates(marked, EligibleIds(canon, s, scanned)) &&
                       events == old(events) + EventsFor(marked, now)
      ensures
        var (after, committed) :=
          AfterScan(canon, old(rows), Scan(agent, project, report, now, stopsAt, failsAt, commits));
        rows == after && sweeps == old(sweeps) + committed
    {
      UpsertsSucceedIff(rows, Reached(report.instances, stopsAt));
      var upserted := UpsertSkillInstances(report.instances, stopsAt);
      scanned := rows;
      if upserted.Err? {
        return Err(upserted.error), scanned;
      }
      var sweep := SweepFor(agent, project, report);
      if sweep.None? {
        return Ok(0), scanned;
      }
      var count := MarkMissing(canon, sweep.value, select(rows), now, failsAt, commits);
      r := if count.None? then Err(Database) else Ok(count.value);
    }

    /**
      A run of scan updates on an empty catalog: each row has as many missing events as sweeps that made it missing.
     */
    method Replay(canon: Canonicalize, scans: seq<Scan>, select: map<string, Row> -> seq<string>)
      requires forall table :: Enumerates(select(table), table.Keys)
      requires rows == map[] && events == [] && sweeps == []
      modifies this
      ensures rows == TableAfter(canon, scans)
      ensures forall id :: MissingEvents(events, id) == Transitions(SweepsOf(canon, scans), id)
    {
      for i := 0 to |scans|
        invariant Valid() && rows == TableAfter(canon, scans[..i]) && sweeps == SweepsOf(canon, scans[..i])
      {
        assert scans[..i + 1][..i] == scans[..i];
        var scan := scans[i];
        var _, _ := UpdateFromScan(
          canon, scan.agent, scan.project, scan.report, select, scan.now, scan.stopsAt, scan.failsAt, scan.commits);
      }
      assert scans[..|scans|] == scans;
    }
  }

  // ----- runs -------------------------------------------------------------------------------

  /** One scan update, and how its upserts and its sweep fare in the database. */
  datatype Scan = Scan(
    agent: string, project: Option<string>, report: Report, now: int, stopsAt: Option<nat>, failsAt: Option<nat>,
    commits: bool)

  /** The table after a scan update, with the change its sweep committed, if any. */
  ghost function AfterScan(
    canon: Canonicalize, rows: map<string, Row>, scan: Scan): (r: (map<string, Row>, seq<Change>))
    requires UniquePlaces(rows)
    ensures UniquePlaces(r.0)
  {
    var reached := Reached(scan.report.instances, scan.stopsAt);
    var (scanned, free) := AfterUpserts(rows, reached);
    var ok := free && reached == scan.report.instances;
    match SweepFor(scan.agent, scan.project, scan.report)
    case None => (scanned, [])
    case Some(s) =>
      if !ok || !scan.commits || (scan.failsAt.Some? && scan.failsAt.value < |EligibleIds(canon, s, scanned)|) then
        (scanned, [])
      else
        SweptKeepsPlaces(canon, s, scanned);
        (Swept(canon, s, scanned), [Change(scanned, Swept(canon, s, scanned))])
  }

  ghost function TableAfter(canon: Canonicalize, scans: seq<Scan>): (rows: map<string, Row>)
    ensures UniquePlaces(rows)
  {
    if scans == [] then map[] else AfterScan(canon, TableAfter(canon, scans[..|scans| - 1]), scans[|scans| - 1]).0
  }

  /** The committed sweeps of a run. */
  ghost function SweepsOf(canon: Canonicalize, scans: seq<Scan>): seq<Change> {
    if scans == [] then []
    else
      var earlier := scans[..|scans| - 1];
      SweepsOf(canon, earlier) + AfterScan(canon, TableAfter(canon, earlier), scans[|scans| - 1]).1
  }

  // ----- proofs -----------------------------------------------------------------------------

  lemma NextUpsert(rows: map<string, Row>, scanned: seq<Scanned>, k: nat)
    requires UniquePlaces(rows) && k < |scanned| && AfterUpserts(rows, scanned[..k]).1
    ensures
      var (before, next) := (AfterUpserts(rows, scanned[..k]).0, AfterUpserts(rows, scanned[..k + 1]));
      next == match AfterUpsert(before, scanned[k]) case Some(after) => (after, true) case None => (before, false)
  {
    assert scanned[..k + 1][..k] == scanned[..k];
  }

  lemma TakenStops(rows: map<string, Row>, scanned: seq<Scanned>, failsAt: Option<nat>, k: nat)
    requires UniquePlaces(rows) && k < |scanned| && (failsAt.Some? ==> k < failsAt.value)
    requires AfterUpserts(rows, scanned[..k]).1 && !AfterUpserts(rows, scanned[..k + 1]).1
    ensures AfterUpserts(rows, Reached(scanned, failsAt)) == (AfterUpserts(rows, scanned[..k]).0, false)
    ensures !AfterUpserts(rows, scanned).1
  {
    NextUpsert(rows, scanned, k);
    FailureStops(rows, scanned, k + 1);
    ReachedPrefix(scanned, failsAt, k + 1);
    FailureStops(rows, Reached(scanned, failsAt), k + 1);
  }

  lemma ReachedPrefix(scanned: seq<Scanned>, failsAt: Option<nat>, n: nat)
    requires n <= |scanned| && (failsAt.Some? ==> n <= failsAt.value)
    ensures n <= |Reached(scanned, failsAt)| && Reached(scanned, failsAt)[..n] == scanned[..n]
  {
  }

  lemma {:induction false} FailureStops(rows: map<string, Row>, scanned: seq<Scanned>, n: nat)
    requires UniquePlaces(rows) && n <= |scanned| && !AfterUpserts(rows, scanned[..n]).1
    ensures AfterUpserts(rows, scanned) == AfterUpserts(rows, scanned[..n])
    decreases |scanned|
  {
    if n < |scanned| {
      assert scanned[..|scanned| - 1][..n] == scanned[..n];
      FailureStops(rows, scanned[..|scanned| - 1], n);
    } else {
      assert scanned[..n] == scanned;
    }
  }

  lemma {:induction false} UpsertsAbsorb(rows: map<string, Row>, scanned: seq<Scanned>)
    requires UniquePlaces(rows)
    ensures Absorbs(rows, AfterUpserts(rows, scanned).0, scanned)
    ensures AfterUpserts(rows, scanned).1 ==> Recorded(AfterUpserts(rows, scanned).0, scanned)
  {
    if scanned == [] {
      NothingAbsorbed(rows);
    } else {
      var n := |scanned| - 1;
      var (before, ok) := AfterUpserts(rows, scanned[..n]);
      UpsertsAbsorb(rows, scanned[..n]);
      MoreMayBeAbsorbed(rows, before, scanned[..n], scanned);
      if ok && AfterUpsert(before, scanned[n]).Some? {
        NextAbsorbed(rows, before, AfterUpsert(before, scanned[n]).value, scanned, n);
        assert scanned[..n + 1] == scanned;
      }
    }
  }

  /** A place is still free exactly when the table had no row there and nothing was scanned there. */
  lemma StillFree(rows: map<string, Row>, after: map<string, Row>, scanned: seq<Scanned>, place: Place)
    requires Absorbed(rows, after, scanned)
    ensures HolderOf(after, place).None? <==> !IsTaken(rows, place) && !IsPlaceOf(place, scanned)
  {
    if IsTaken(rows, place) {
      var id :| Holds(rows, place, id);
      assert Holds(after, place, id);
    }
    if HolderOf(after, place).Some? && HolderOf(after, place).value in rows {
      assert Holds(rows, place, HolderOf(after, place).value);
    }
    if IsPlaceOf(place, scanned) {
      LastExists(scanned, place);
      var k: nat :| LastAt(scanned, k) && PlaceOf(scanned[k].row) == place;
      assert RecordedAt(after, scanned[k].row);
    }
  }

  lemma {:induction false} LastExists(scanned: seq<Scanned>, place: Place)
    requires IsPlaceOf(place, scanned)
    ensures exists k: nat :: LastAt(scanned, k) && PlaceOf(scanned[k].row) == place
  {
    var n := |scanned| - 1;
    if PlaceOf(scanned[n].row) == place {
      assert LastAt(scanned, n);
    } else {
      var fewer := scanned[..n];
      var j :| 0 <= j < |scanned| && PlaceOf(scanned[j].row) == place;
      assert fewer[j] == scanned[j];
      LastExists(fewer, place);
      var k: nat :| LastAt(fewer, k) && PlaceOf(fewer[k].row) == place;
      assert forall l :: k < l < n ==> fewer[l] == scanned[l];
      assert LastAt(scanned, k);
    }
  }

  /** Upserts succeed exactly when every new place comes with a new id. */
  lemma {:induction false} UpsertsSucceedIff(rows: map<string, Row>, scanned: seq<Scanned>)
    requires UniquePlaces(rows)
    ensures AfterUpserts(rows, scanned).1 <==> NewIdsAreFree(rows, scanned)
    ensures AfterUpserts(rows, scanned).1 ==> AfterUpserts(rows, scanned).0.Keys == rows.Keys + NewIds(rows, scanned)
  {
    if scanned != [] {
      var n := |scanned| - 1;
      var fewer := scanned[..n];
      var (before, ok) := AfterUpserts(rows, fewer);
      UpsertsSucceedIff(rows, fewer);
      OneMoreNewId(rows, scanned);
      OneMoreFreeId(rows, scanned);
      if ok {
        NewPlaceIsFree(rows, scanned);
        LastUpsert(rows, before, scanned);
      }
    }
  }

  lemma NewPlaceIsFree(rows: map<string, Row>, scanned: seq<Scanned>)
    requires UniquePlaces(rows) && scanned != [] && AfterUpserts(rows, scanned[..|scanned| - 1]).1
    ensures
      var n := |scanned| - 1;
      IsNewAt(rows, scanned, n) <==> HolderOf(AfterUpserts(rows, scanned[..n]).0, PlaceOf(scanned[n].row)).None?
  {
    var n := |scanned| - 1;
    StillFreeAfter(rows, scanned[..n], PlaceOf(scanned[n].row));
    NewMeansNotScanned(rows, scanned, n);
  }

  lemma StillFreeAfter(rows: map<string, Row>, scanned: seq<Scanned>, place: Place)
    requires UniquePlaces(rows) && AfterUpserts(rows, scanned).1
    ensures HolderOf(AfterUpserts(rows, scanned).0, place).None? <==>
            !IsTaken(rows, place) && !IsPlaceOf(place, scanned)
  {
    UpsertsAbsorb(rows, scanned);
    StillFree(rows, AfterUpserts(rows, scanned).0, scanned, place);
  }

  lemma NewMeansNotScanned(rows: map<string, Row>, scanned: seq<Scanned>, n: nat)
    requires n < |scanned|
    ensures IsNewAt(rows, scanned, n) <==>
            !IsTaken(rows, PlaceOf(scanned[n].row)) && !IsPlaceOf(PlaceOf(scanned[n].row), scanned[..n])
  {
    if IsPlaceOf(PlaceOf(scanned[n].row), scanned[..n]) {
      var k :| 0 <= k < n && PlaceOf(scanned[..n][k].row) == PlaceOf(scanned[n].row);
      assert scanned[..n][k] == scanned[k];
    }
    if j :| 0 <= j < n && PlaceOf(scanned[j].row) == PlaceOf(scanned[n].row) {
      assert scanned[..n][j] == scanned[j];
    }
  }

  lemma LastUpsert(rows: map<string, Row>, before: map<string, Row>, scanned: seq<Scanned>)
    requires scanned != [] && UniquePlaces(before)
    requires before.Keys == rows.Keys + NewIds(rows, scanned[..|scanned| - 1])
    requires IsNewAt(rows, scanned, |scanned| - 1) <==> HolderOf(before, PlaceOf(scanned[|scanned| - 1].row)).None?
    ensures
      var n := |scanned| - 1;
      var after := AfterUpsert(before, scanned[n]);
      && (after.Some? <==>
          (IsNewAt(rows, scanned, n) ==> scanned[n].id !in rows && scanned[n].id !in NewIds(rows, scanned[..n])))
      && (after.Some? ==> after.value.Keys == before.Keys + if IsNewAt(rows, scanned, n) then {scanned[n].id} else {})
  {
    assert forall id :: id in before <==> id in before.Keys;
  }

  lemma OneMoreNewId(rows: map<string, Row>, scanned: seq<Scanned>)
    requires scanned != []
    ensures
      var n := |scanned| - 1;
      NewIds(rows, scanned) == NewIds(rows, scanned[..n]) + if IsNewAt(rows, scanned, n) then {scanned[n].id} else {}
  {
    var n := |scanned| - 1;
    forall k | 0 <= k < n ensures IsNewAt(rows, scanned[..n], k) <==> IsNewAt(rows, scanned, k) {
      NewInPrefix(rows, scanned, n, k);
    }
  }

  lemma OneMoreFreeId(rows: map<string, Row>, scanned: seq<Scanned>)
    requires scanned != []
    ensures NewIdsAreFree(rows, scanned) <==>
            NewIdsAreFree(rows, scanned[..|scanned| - 1]) && IsFreeAt(rows, scanned, |scanned| - 1)
  {
    var n := |scanned| - 1;
    forall k | 0 <= k < n ensures IsFreeAt(rows, scanned[..n], k) <==> IsFreeAt(rows, scanned, k) {
      NewInPrefix(rows, scanned, n, k);
      assert scanned[..n][..k] == scanned[..k];
    }
  }

  lemma NewInPrefix(rows: map<string, Row>, scanned: seq<Scanned>, n: nat, k: nat)
    requires k < n <= |scanned|
    ensures IsNewAt(rows, scanned[..n], k) <==> IsNewAt(rows, scanned, k)
  {
    assert forall j :: 0 <= j <= k ==> scanned[..n][j] == scanned[j];
  }

  lemma NothingAbsorbed(rows: map<string, Row>)
    requires UniquePlaces(rows)
    ensures Absorbed(rows, rows, [])
  {
  }

  lemma MoreMayBeAbsorbed(before: map<string, Row>, rows: map<string, Row>, few: seq<Scanned>, many: seq<Scanned>)
    requires Absorbs(before, rows, few) && few <= many
    ensures Absorbs(before, rows, many)
  {
    forall place | IsPlaceOf(place, few) ensures IsPlaceOf(place, many) {
      var k :| 0 <= k < |few| && PlaceOf(few[k].row) == place;
      assert many[k] == few[k];
    }
  }

  lemma OneMorePlace(scanned: seq<Scanned>, x: Scanned, place: Place)
    ensures IsPlaceOf(place, scanned + [x]) <==> IsPlaceOf(place, scanned) || place == PlaceOf(x.row)
  {
    var more := scanned + [x];
    if IsPlaceOf(place, scanned) {
      var k :| 0 <= k < |scanned| && PlaceOf(scanned[k].row) == place;
      assert more[k] == scanned[k];
    }
    assert more[|scanned|] == x;
  }

  lemma NextAbsorbed(
    first: map<string, Row>, before: map<string, Row>, rows: map<string, Row>, scanned: seq<Scanned>, k: nat)
    requires k < |scanned| && Absorbed(first, before, scanned[..k]) && AfterUpsert(before, scanned[k]) == Some(rows)
    ensures Absorbed(first, rows, scanned[..k + 1])
  {
    assert scanned[..k + 1] == scanned[..k] + [scanned[k]];
    AbsorbsOne(before, rows, scanned[k]);
    AbsorbsNext(first, before, rows, scanned[..k], scanned[k]);
    NextRecorded(before, rows, scanned[..k], scanned[k]);
  }

  /** One upsert touches one row, at the place of what was scanned. */
  lemma AbsorbsOne(before: map<string, Row>, rows: map<string, Row>, x: Scanned)
    requires UniquePlaces(before) && AfterUpsert(before, x) == Some(rows)
    ensures UniquePlaces(rows)
    ensures forall id :: id in before ==>
              && id in rows && PlaceOf(rows[id]) == PlaceOf(before[id]) && rows[id].firstSeen == before[id].firstSeen
              && (PlaceOf(before[id]) != PlaceOf(x.row) ==> rows[id] == before[id])
    ensures forall id :: id in rows && id !in before ==> PlaceOf(rows[id]) == PlaceOf(x.row)
    ensures RecordedAt(rows, x.row)
  {
    var holder := HolderOf(before, PlaceOf(x.row));
    var id := if holder.Some? then holder.value else x.id;
    assert Holds(rows, PlaceOf(x.row), id);
  }

  lemma AbsorbsNext(
    first: map<string, Row>, before: map<string, Row>, rows: map<string, Row>, scanned: seq<Scanned>, x: Scanned)
    requires Absorbs(first, before, scanned) && UniquePlaces(rows)
    requires forall id :: id in before ==>
              && id in rows && PlaceOf(rows[id]) == PlaceOf(before[id]) && rows[id].firstSeen == before[id].firstSeen
              && (PlaceOf(before[id]) != PlaceOf(x.row) ==> rows[id] == before[id])
    requires forall id :: id in rows && id !in before ==> PlaceOf(rows[id]) == PlaceOf(x.row)
    ensures Absorbs(first, rows, scanned + [x])
  {
    forall place ensures IsPlaceOf(place, scanned + [x]) <==> IsPlaceOf(place, scanned) || place == PlaceOf(x.row) {
      OneMorePlace(scanned, x, place);
    }
  }

  lemma NextRecorded(before: map<string, Row>, rows: map<string, Row>, scanned: seq<Scanned>, x: Scanned)
    requires UniquePlaces(before) && Recorded(before, scanned) && AfterUpsert(before, x) == Some(rows) &&
             RecordedAt(rows, x.row)
    ensures Recorded(rows, scanned + [x])
  {
    var more := scanned + [x];
    forall k | 0 <= k < |more| && LastAt(more, k) ensures RecordedAt(rows, more[k].row) {
      if k < |scanned| {
        assert PlaceOf(more[|scanned|].row) != PlaceOf(more[k].row);
        assert forall l :: k < l < |scanned| ==> more[l] == scanned[l];
        assert LastAt(scanned, k);
        StaysRecorded(before, rows, x, scanned[k].row);
      }
    }
  }

  lemma StaysRecorded(before: map<string, Row>, rows: map<string, Row>, x: Scanned, row: Row)
    requires UniquePlaces(before) && AfterUpsert(before, x) == Some(rows)
    requires RecordedAt(before, row) && PlaceOf(row) != PlaceOf(x.row)
    ensures RecordedAt(rows, row)
  {
    var id :| Holds(before, PlaceOf(row), id) && before[id] == row.(firstSeen := before[id].firstSeen);
    assert Holds(rows, PlaceOf(row), id);
  }

  lemma {:induction false} CountEnumerated(order: seq<string>, ids: set<string>)
    requires Enumerates(order, ids)
    ensures |order| == |ids|
  {
    if order != [] {
      var last := order[|order| - 1];
      assert order == order[..|order| - 1] + [last];
      CountEnumerated(order[..|order| - 1], ids - {last});
    } else {
      assert ids == {};
    }
  }

  function EventsFor(ids: seq<string>, now: int): seq<Event> {
    if ids == [] then [] else EventsFor(ids[..|ids| - 1], now) + [Event(ids[|ids| - 1], MISSING, now)]
  }

  lemma {:induction false} EventCount(events: seq<Event>, ids: seq<string>, now: int, id: string)
    requires forall k, l :: 0 <= k < l < |ids| ==> ids[k] != ids[l]
    ensures MissingEvents(events + EventsFor(ids, now), id) == MissingEvents(events, id) + if id in ids then 1 else 0
  {
    if ids == [] {
      assert events + EventsFor(ids, now) == events;
    } else {
      var fewer, last := ids[..|ids| - 1], ids[|ids| - 1];
      EventCount(events, fewer, now, id);
      OneMoreEvent(events + EventsFor(fewer, now), Event(last, MISSING, now), id);
      LastEventApart(events, EventsFor(fewer, now), Event(last, MISSING, now));
      LastIsNew(ids, id);
    }
  }

  lemma LastEventApart(a: seq<Event>, b: seq<Event>, e: Event)
    ensures a + (b + [e]) == a + b + [e]
  {
  }

  lemma LastIsNew(ids: seq<string>, id: string)
    requires ids != [] && forall k, l :: 0 <= k < l < |ids| ==> ids[k] != ids[l]
    ensures id in ids <==> id in ids[..|ids| - 1] || id == ids[|ids| - 1]
    ensures ids[|ids| - 1] !in ids[..|ids| - 1]
  {
    assert ids == ids[..|ids| - 1] + [ids[|ids| - 1]];
  }

  lemma OneMoreEvent(events: seq<Event>, e: Event, id: string)
    ensures MissingEvents(events + [e], id) ==
            MissingEvents(events, id) + if e.instance == id && e.kind == MISSING then 1 else 0
  {
    assert (events + [e])[..|events|] == events;
  }

  lemma SelectedAreEligible(canon: Canonicalize, s: Sweep, rows: map<string, Row>, ids: seq<string>)
    requires Enumerates(ids, EligibleIds(canon, s, rows))
    ensures forall id :: id in ids ==> id in rows && Eligible(canon, s, rows[id])
  {
    assert forall id :: id in ids ==> id in EligibleIds(canon, s, rows);
  }

  lemma SweptKeepsPlaces(canon: Canonicalize, s: Sweep, rows: map<string, Row>)
    requires UniquePlaces(rows)
    ensures UniquePlaces(Swept(canon, s, rows))
  {
    assert forall id :: id in rows ==> PlaceOf(Swept(canon, s, rows)[id]) == PlaceOf(rows[id]);
  }

  ghost function Marked(rows: map<string, Row>, ids: seq<string>): map<string, Row> {
    map id | id in rows :: if id in ids then rows[id].(state := MISSING) else rows[id]
  }

  lemma MarkNext(rows: map<string, Row>, ids: seq<string>, i: nat, events: seq<Event>, now: int)
    requires i < |ids| && ids[i] in rows && ids[i] !in ids[..i]
    ensures Marked(rows, ids[..i + 1]) == Marked(rows, ids[..i])[ids[i] := rows[ids[i]].(state := MISSING)]
    ensures events + EventsFor(ids[..i + 1], now) == events + EventsFor(ids[..i], now) + [Event(ids[i], MISSING, now)]
  {
    assert ids[..i + 1] == ids[..i] + [ids[i]];
    assert ids[..i + 1][..i] == ids[..i];
  }

  lemma MarkedIsSwept(canon: Canonicalize, s: Sweep, rows: map<string, Row>, ids: seq<string>)
    requires Enumerates(ids, EligibleIds(canon, s, rows))
    ensures Marked(rows, ids) == Swept(canon, s, rows)
  {
    forall id | id in rows ensures id in ids <==> Eligible(canon, s, rows[id]) {
      assert id in ids <==> id in EligibleIds(canon, s, rows);
    }
  }

  /** The rows that a sweep makes missing are the eligible ones. */
  lemma SweepCounts(canon: Canonicalize, s: Sweep, rows: map<string, Row>, sweeps: seq<Change>)
    ensures forall id :: Transitions(sweeps + [Change(rows, Swept(canon, s, rows))], id) ==
                         Transitions(sweeps, id) + if id in EligibleIds(canon, s, rows) then 1 else 0
  {
    var c := Change(rows, Swept(canon, s, rows));
    assert (sweeps + [c])[..|sweeps|] == sweeps;
    assert forall id :: GoesMissing(c, id) <==> id in EligibleIds(canon, s, rows);
  }

  /** A sweep with one event for each row it marks keeps events and transitions equal. */
  lemma CountsAgree(
    canon: Canonicalize, s: Sweep, rows: map<string, Row>, sweeps: seq<Change>, events: seq<Event>, ids: seq<string>,
    now: int)
    requires Enumerates(ids, EligibleIds(canon, s, rows))
    requires forall id :: MissingEvents(events, id) == Transitions(sweeps, id)
    ensures forall id :: MissingEvents(events + EventsFor(ids, now), id) ==
                         Transitions(sweeps + [Change(rows, Swept(canon, s, rows))], id)
  {
    SweepCounts(canon, s, rows, sweeps);
    forall id
      ensures MissingEvents(events + EventsFor(ids, now), id) ==
              Transitions(sweeps + [Change(rows, Swept(canon, s, rows))], id)
    {
      EventCount(events, ids, now, id);
      assert id in ids <==> id in EligibleIds(canon, s, rows);
    }
  }

  /** A sweep touches nothing but the state of rows it is meant for. */
  lemma SweepIsLocal(canon: Canonicalize, s: Sweep, rows: map<string, Row>, id: string)
    requires id in rows
    ensures
      var row, after := rows[id], Swept(canon, s, rows)[id];
      && after == row.(state := after.state) && after.state in {row.state, MISSING}
      && (after != row ==>
            && row.agent == s.agent && row.scope != TOOL_GLOBAL && row.state != MISSING
            && (row.scope, row.path) !in s.seen
            && (s.context.Some? && row.scope == AGENT_PROJECT ==>
                  row.projectRoot.Some? && s.context.value.Some? &&
                  SameProject(canon, row.projectRoot.value, s.context.value.value))
            && (s.roots.Some? ==> UnderRoots(row, s.roots.value)))
  {
  }

  /** After an exact scan every row of the agent and project that is not missing was seen. */
  lemma ExactScanLeavesSeen(
    canon: Canonicalize, agent: string, project: Option<string>, report: Report, scanned: map<string, Row>,
    id: string)
    requires Exact(report) && id in scanned
    ensures
      var row := Swept(canon, SweepFor(agent, project, report).value, scanned)[id];
      row.agent == agent && row.scope != TOOL_GLOBAL && row.state != MISSING &&
        MatchesProject(canon, row, Some(project)) ==>
        exists k :: 0 <= k < |report.instances| && report.instances[k].row.scope == row.scope &&
          report.instances[k].row.path == row.path
  {
  }

  /** After an inexact scan only rows under completely scanned roots of their own scope can have become missing. */
  lemma InexactScanStaysUnderRoots(
    canon: Canonicalize, agent: string, project: Option<string>, report: Report, before: map<string, Row>,
    scanned: map<string, Row>, id: string)
    requires !Exact(report) && Absorbs(before, scanned, report.instances) && id in before
    ensures
      var after := match SweepFor(agent, project, report) case None => scanned case Some(s) => Swept(canon, s, scanned);
      id in after && before[id].state != MISSING && after[id].state == MISSING &&
        !IsPlaceOf(PlaceOf(before[id]), report.instances) ==>
        UnderRoots(before[id], report.scopedScannedRoots)
  {
  }
}
