/** Switching several skills at once (crates/commands/src/lib.rs 2985-3287). */
module BatchToggle {
  import opened Common

  datatype Meta = Meta(
    name: string, agent: string, scope: string, projectRoot: Option<string>, path: string, enabled: bool, state: string)

  type Rows = map<string, Meta>

  /** A config file that holds the switches of some skills. */
  datatype Target = Target(agent: string, scope: string, path: string)

  /** The config file of an instance, if it is writable from the present project. */
  type TargetOf = Meta -> Option<Target>

  datatype Reason = Duplicate | NotFound | AlreadySet | NoTarget

  datatype Item = Item(id: string, meta: Meta, target: Target)

  datatype Skip = Skip(id: string, reason: Reason)

  datatype Preview = Preview(on: bool, requested: nat, affected: seq<Item>, skipped: seq<Skip>)

  // ----- preview ----------------------------------------------------------------------------

  /** Why the i-th request is skipped, or the item to switch. */
  function Judge(rows: Rows, targetOf: TargetOf, ids: seq<string>, on: bool, i: nat): Result<Item, Reason>
    requires i < |ids|
  {
    if ids[i] in ids[..i] then Err(Duplicate)
    else if ids[i] !in rows then Err(NotFound)
    else if rows[ids[i]].enabled == on then Err(AlreadySet)
    else
      match targetOf(rows[ids[i]])
      case None => Err(NoTarget)
      case Some(t) => Ok(Item(ids[i], rows[ids[i]], t))
  }

  function AffectedIn(rows: Rows, targetOf: TargetOf, ids: seq<string>, on: bool, n: nat): seq<Item>
    requires n <= |ids|
  {
    if n == 0 then []
    else
      AffectedIn(rows, targetOf, ids, on, n - 1) +
      (match Judge(rows, targetOf, ids, on, n - 1) case Ok(item) => [item] case Err(_) => [])
  }

  function SkippedIn(rows: Rows, targetOf: TargetOf, ids: seq<string>, on: bool, n: nat): seq<Skip>
    requires n <= |ids|
  {
    if n == 0 then []
    else
      SkippedIn(rows, targetOf, ids, on, n - 1) +
      (match Judge(rows, targetOf, ids, on, n - 1) case Ok(_) => [] case Err(reason) => [Skip(ids[n - 1], reason)])
  }

  function PreviewOf(rows: Rows, targetOf: TargetOf, ids: seq<string>, on: bool): Preview {
    Preview(on, |ids|, AffectedIn(rows, targetOf, ids, on, |ids|), SkippedIn(rows, targetOf, ids, on, |ids|))
  }

  method PreviewSkillToggles(rows: Rows, targetOf: TargetOf, ids: seq<string>, on: bool) returns (preview: Preview)
    ensures preview == PreviewOf(rows, targetOf, ids, on)
  {
    var seen: set<string> := {};
    var affected, skipped := [], [];
    for i := 0 to |ids|
      invariant forall id :: id in seen <==> id in ids[..i]
      invariant affected == AffectedIn(rows, targetOf, ids, on, i) && skipped == SkippedIn(rows, targetOf, ids, on, i)
    {
      var id := ids[i];
      if id in seen {
        skipped := skipped + [Skip(id, Duplicate)];
      } else if id !in rows {
        skipped := skipped + [Skip(id, NotFound)];
      } else if rows[id].enabled == on {
        skipped := skipped + [Skip(id, AlreadySet)];
      } else {
        var target := targetOf(rows[id]);
        if target.None? {
          skipped := skipped + [Skip(id, NoTarget)];
        } else {
          affected := affected + [Item(id, rows[id], target.value)];
        }
      }
      seen := seen + {id};
      assert ids[..i + 1] == ids[..i] + [id];
    }
    preview := Preview(on, |ids|, affected, skipped);
  }

  ghost predicate Writable(rows: Rows, targetOf: TargetOf, on: bool, x: Item) {
    x.id in rows && x.meta == rows[x.id] && x.meta.enabled != on && targetOf(x.meta) == Some(x.target)
  }

  ghost predicate DistinctItems(items: seq<Item>) {
    forall i, j :: 0 <= i < j < |items| ==> items[i].id != items[j].id
  }

  /** Every request is either affected or skipped; the affected ones are the writable instances asked for, once each. */
  lemma {:induction false} PreviewPartitions(rows: Rows, targetOf: TargetOf, ids: seq<string>, on: bool, n: nat)
    requires n <= |ids|
    ensures |AffectedIn(rows, targetOf, ids, on, n)| + |SkippedIn(rows, targetOf, ids, on, n)| == n
    ensures DistinctItems(AffectedIn(rows, targetOf, ids, on, n))
    ensures forall x :: x in AffectedIn(rows, targetOf, ids, on, n) <==>
            x.id in ids[..n] && Writable(rows, targetOf, on, x)
  {
    if n > 0 {
      PreviewPartitions(rows, targetOf, ids, on, n - 1);
      assert ids[..n] == ids[..n - 1] + [ids[n - 1]];
    }
  }

  // ----- groups -----------------------------------------------------------------------------

  /** The items of one config file, in the order of the request. */
  function ForTarget(items: seq<Item>, t: Target): seq<Item> {
    if items == [] then []
    else ForTarget(items[..|items| - 1], t) + if items[|items| - 1].target == t then [items[|items| - 1]] else []
  }

  ghost predicate IsGrouping(items: seq<Item>, groups: map<Target, seq<Item>>) {
    && (forall t :: t in groups ==> groups[t] == ForTarget(items, t) && groups[t] != [])
    && (forall x :: x in items ==> x.target in groups)
  }

  method GroupByTarget(items: seq<Item>) returns (groups: map<Target, seq<Item>>)
    ensures IsGrouping(items, groups)
  {
    groups := map[];
    for i := 0 to |items|
      invariant IsGrouping(items[..i], groups)
    {
      var x := items[i];
      assert items[..i + 1] == items[..i] + [x] && items[..i + 1][..i] == items[..i];
      if x.target !in groups {
        NoneForTarget(items[..i], x.target);
      }
      groups := groups[x.target := (if x.target in groups then groups[x.target] else []) + [x]];
    }
    assert items[..|items|] == items;
  }

  lemma {:induction false} NoneForTarget(items: seq<Item>, t: Target)
    requires forall x :: x in items ==> x.target != t
    ensures ForTarget(items, t) == []
  {
    if items != [] {
      assert items[|items| - 1] in items;
      NoneForTarget(items[..|items| - 1], t);
    }
  }

  lemma {:induction false} ForTargetMembers(items: seq<Item>, t: Target)
    requires DistinctItems(items)
    ensures DistinctItems(ForTarget(items, t))
    ensures forall x :: x in ForTarget(items, t) <==> x in items && x.target == t
  {
    if items != [] {
      var fewer, last := items[..|items| - 1], items[|items| - 1];
      assert items == fewer + [last];
      ForTargetMembers(fewer, t);
    }
  }

  // ----- the workspace ----------------------------------------------------------------------

  datatype Snapshot = Snapshot(target: Target, content: string)

  datatype ToggleEvent = ToggleEvent(id: string, on: bool, previous: bool, target: Target, snapshot: nat)

  /**
   * How the work on one config file turns out. Row and event of an item are two statements: either may fail for the
   * item at `at`. After all items the records are read again, which may fail as well.
   */
  datatype Fate =
    | Fine | FailsEarly | FailsWriting | FailsAfterRename
    | Disturbed(found: string, putBack: bool)
    | RowFails(at: nat) | EventFails(at: nat) | ReadFails

  datatype BatchError = StalePreview | NothingWritable | Failed

  /** Patching and snapshot contents, which this module does not define. */
  datatype Services = Services(
    normalize: (Target, string) -> string, patch: (string, Meta, bool) -> Option<string>, redact: string -> string)

  function PatchAll(sv: Services, text: string, items: seq<Item>, on: bool): Option<string> {
    if items == [] then Some(text)
    else
      match PatchAll(sv, text, items[..|items| - 1], on)
      case None => None
      case Some(patched) => sv.patch(patched, items[|items| - 1].meta, on)
  }

  /** The files by path; a missing one reads as empty text. */
  type Files = map<string, string>

  function TextOf(sv: Services, files: Files, t: Target): string {
    sv.normalize(t, if t.path in files then files[t.path] else "")
  }

  function Patched(sv: Services, files: Files, t: Target, items: seq<Item>, on: bool): Option<string> {
    PatchAll(sv, TextOf(sv, files, t), items, on)
  }

  function Switched(m: Meta, on: bool): Meta {
    m.(enabled := on, state := if on then "loaded" else "disabled")
  }

  predicate HasItem(items: seq<Item>, id: string) {
    exists k :: 0 <= k < |items| && items[k].id == id
  }

  /** The rows with those of the items switched. */
  function SwitchRows(rows: Rows, items: seq<Item>, on: bool): Rows {
    map id | id in rows :: if HasItem(items, id) then Switched(rows[id], on) else rows[id]
  }

  function EventsFor(items: seq<Item>, on: bool, t: Target, snapshot: nat): seq<ToggleEvent> {
    seq(|items|, i requires 0 <= i < |items| => ToggleEvent(items[i].id, on, items[i].meta.enabled, t, snapshot))
  }

  function SnapshotOf(sv: Services, files: Files, t: Target): Snapshot {
    Snapshot(t, sv.redact(TextOf(sv, files, t)))
  }

  datatype State = State(rows: Rows, files: Files, snapshots: seq<Snapshot>, events: seq<ToggleEvent>)

  // ----- one target -------------------------------------------------------------------------

  /** One target: its file patched for all its items, one snapshot, and the items switched with one event each. */
  function GroupResult(sv: Services, s: State, t: Target, items: seq<Item>, on: bool): Option<State> {
    match Patched(sv, s.files, t, items, on)
    case None => None
    case Some(text) =>
      Some(State(
             SwitchRows(s.rows, items, on), s.files[t.path := text], s.snapshots + [SnapshotOf(sv, s.files, t)],
             s.events + EventsFor(items, on, t, |s.snapshots|)))
  }

  ghost predicate GroupApplied(sv: Services, before: State, after: State, t: Target, items: seq<Item>, on: bool) {
    GroupResult(sv, before, t, items, on) == Some(after)
  }

  /** When the work on one target succeeds. */
  predicate GroupSucceeds(sv: Services, files: Files, t: Target, items: seq<Item>, on: bool, fate: Fate) {
    var patched := Patched(sv, files, t, items, on);
    && patched.Some?
    && match fate
       case Fine => true
       case ReadFails => true
       case Disturbed(found, _) => found == patched.value
       case RowFails(at) => at >= |items|
       case EventFails(at) => at >= |items|
       case _ => false
  }

  /** The work succeeds and the records can be read again. */
  predicate TargetSucceeds(sv: Services, files: Files, t: Target, items: seq<Item>, on: bool, fate: Fate) {
    GroupSucceeds(sv, files, t, items, on, fate) && !fate.ReadFails?
  }

  /** The row of an item is switched and then its event cannot be inserted. */
  predicate CutBetween(sv: Services, files: Files, t: Target, items: seq<Item>, on: bool, fate: Fate) {
    fate.EventFails? && fate.at < |items| && Patched(sv, files, t, items, on).Some?
  }

  /** How many of the items have their events in the end. */
  function EventsDone(sv: Services, files: Files, t: Target, items: seq<Item>, on: bool, fate: Fate): (n: nat)
    ensures n <= |items|
    ensures CutBetween(sv, files, t, items, on, fate) ==> n < |items|
  {
    if GroupSucceeds(sv, files, t, items, on, fate) then |items|
    else if Patched(sv, files, t, items, on).Some? && (fate.RowFails? || fate.EventFails?) then fate.at
    else 0
  }

  /** How many of the items have their rows switched in the end. */
  function RowsDone(sv: Services, files: Files, t: Target, items: seq<Item>, on: bool, fate: Fate): (n: nat)
    ensures n <= |items|
  {
    EventsDone(sv, files, t, items, on, fate) + if CutBetween(sv, files, t, items, on, fate) then 1 else 0
  }

  /** Rows and events of as many items as the fate lets through. */
  ghost predicate Recorded(
    sv: Services, before: State, after: State, t: Target, items: seq<Item>, on: bool, fate: Fate)
  {
    && after.rows == SwitchRows(before.rows, items[..RowsDone(sv, before.files, t, items, on, fate)], on)
    && after.events ==
       before.events +
       EventsFor(items[..EventsDone(sv, before.files, t, items, on, fate)], on, t, |before.snapshots|)
  }

  /**
   * A failed group: perhaps a snapshot of its file, then perhaps another text in that file, and only after the
   * patched text is in place some first items recorded.
   */
  ghost predicate GroupFailed(
    sv: Services, before: State, after: State, t: Target, items: seq<Item>, on: bool, fate: Fate)
  {
    && after.snapshots in {before.snapshots, before.snapshots + [SnapshotOf(sv, before.files, t)]}
    && (after.snapshots == before.snapshots ==> after == before)
    && after.files - {t.path} == before.files - {t.path}
    && Recorded(sv, before, after, t, items, on, fate)
    && (RowsDone(sv, before.files, t, items, on, fate) > 0 ==>
          t.path in after.files && Patched(sv, before.files, t, items, on) == Some(after.files[t.path]))
  }

  // ----- several targets --------------------------------------------------------------------

  ghost predicate DistinctTargets(order: seq<Target>) {
    forall i, j :: 0 <= i < j < |order| ==> order[i] != order[j]
  }

  /** The items of the targets, one target after the other. */
  function InOrder(items: seq<Item>, order: seq<Target>): seq<Item> {
    if order == [] then [] else InOrder(items, order[..|order| - 1]) + ForTarget(items, order[|order| - 1])
  }

  /** Complete work on the targets one after the other: targets with one path find what the earlier ones left. */
  function BatchResult(sv: Services, before: State, items: seq<Item>, order: seq<Target>, on: bool): Option<State>
    decreases |order|
  {
    if order == [] then Some(before)
    else
      match BatchResult(sv, before, items, order[..|order| - 1], on)
      case None => None
      case Some(mid) => GroupResult(sv, mid, order[|order| - 1], ForTarget(items, order[|order| - 1]), on)
  }

  ghost predicate BatchApplied(
    sv: Services, before: State, after: State, items: seq<Item>, order: seq<Target>, on: bool)
  {
    BatchResult(sv, before, items, order, on) == Some(after)
  }

  function TargetsOf(items: seq<Item>): set<Target> {
    set k | 0 <= k < |items| :: items[k].target
  }

  ghost predicate OrdersTargets(order: seq<Target>, items: seq<Item>) {
    DistinctTargets(order) && forall t :: t in order <==> t in TargetsOf(items)
  }

  /** All targets in some order. */
  ghost predicate Completed(sv: Services, before: State, after: State, items: seq<Item>, on: bool) {
    exists order :: OrdersTargets(order, items) && BatchApplied(sv, before, after, items, order, on)
  }

  /**
   * Some targets are completely applied, one more failed or was applied but could not be read again, and the rest is
   * untouched.
   */
  ghost predicate StoppedAt(
    sv: Services, before: State, mid: State, after: State, items: seq<Item>, done: seq<Target>, t: Target, on: bool,
    fate: Target -> Fate)
  {
    && DistinctTargets(done + [t]) && (forall u :: u in done + [t] ==> u in TargetsOf(items))
    && BatchApplied(sv, before, mid, items, done, on)
    && !TargetSucceeds(sv, mid.files, t, ForTarget(items, t), on, fate(t))
    && (if GroupSucceeds(sv, mid.files, t, ForTarget(items, t), on, fate(t)) then
          GroupApplied(sv, mid, after, t, ForTarget(items, t), on)
        else
          GroupFailed(sv, mid, after, t, ForTarget(items, t), on, fate(t)))
  }

  ghost predicate Stopped(
    sv: Services, before: State, after: State, items: seq<Item>, on: bool, fate: Target -> Fate)
  {
    exists mid, done, t :: StoppedAt(sv, before, mid, after, items, done, t, on, fate)
  }

  /** No two targets share a file. */
  ghost predicate DistinctPaths(items: seq<Item>) {
    forall t, u :: t in TargetsOf(items) && u in TargetsOf(items) && t.path == u.path ==> t == u
  }

  ghost predicate EveryTargetSucceeds(sv: Services, files: Files, items: seq<Item>, on: bool, fate: Target -> Fate) {
    forall t :: t in TargetsOf(items) ==> TargetSucceeds(sv, files, t, ForTarget(items, t), on, fate(t))
  }

  /** The part of a fate that shows before the catalog is written. */
  function InFile(fate: Fate): Fate {
    if fate.RowFails? || fate.EventFails? || fate.ReadFails? then Fine else fate
  }

  lemma FailedInFile(sv: Services, before: State, after: State, t: Target, items: seq<Item>, on: bool, fate: Fate)
    requires !GroupSucceeds(sv, before.files, t, items, on, InFile(fate))
    requires after.rows == before.rows && after.events == before.events
    requires after.snapshots in {before.snapshots, before.snapshots + [SnapshotOf(sv, before.files, t)]}
    requires after.snapshots == before.snapshots ==> after.files == before.files
    requires after.files - {t.path} == before.files - {t.path}
    ensures !GroupSucceeds(sv, before.files, t, items, on, fate)
    ensures GroupFailed(sv, before, after, t, items, on, fate)
  {
    NothingSwitched(before.rows, items, on);
  }

  lemma RecordedAfterWrite(
    sv: Services, before: State, after: State, t: Target, items: seq<Item>, on: bool, fate: Fate, ok: bool)
    requires GroupSucceeds(sv, before.files, t, items, on, InFile(fate))
    requires ok <==> !((fate.RowFails? || fate.EventFails?) && fate.at < |items|)
    requires after.files == before.files[t.path := Patched(sv, before.files, t, items, on).value]
    requires after.snapshots == before.snapshots + [SnapshotOf(sv, before.files, t)]
    requires after.rows ==
             SwitchRows(
               before.rows, items[..if ok then |items| else if fate.EventFails? then fate.at + 1 else fate.at], on)
    requires after.events ==
             before.events + EventsFor(items[..if ok then |items| else fate.at], on, t, |before.snapshots|)
    ensures ok <==> GroupSucceeds(sv, before.files, t, items, on, fate)
    ensures if ok then GroupApplied(sv, before, after, t, items, on)
            else GroupFailed(sv, before, after, t, items, on, fate)
  {
    if ok {
      assert items[..|items|] == items;
    }
  }

  class Workspace {
    ghost function Now(): State
      reads this
    {
      State(rows, files, snapshots, events)
    }

    const sv: Services
    const targetOf: TargetOf
    var rows: Rows
    var files: Files
    var snapshots: seq<Snapshot>
    var events: seq<ToggleEvent>

    constructor (s: Services, f: TargetOf, r: Rows, c: Files)
      ensures sv == s && targetOf == f && rows == r && files == c && snapshots == [] && events == []
    {
      sv, targetOf := s, f;
      rows, files, snapshots, events := r, c, [], [];
    }

    method PatchDocument(text: string, items: seq<Item>, on: bool) returns (patched: Option<string>)
      ensures patched == PatchAll(sv, text, items, on)
    {
      patched := Some(text);
      for i := 0 to |items|
        invariant patched.Some? && patched == PatchAll(sv, text, items[..i], on)
      {
        assert items[..i + 1][..i] == items[..i];
        patched := sv.patch(patched.value, items[i].meta, on);
        if patched.None? {
          PatchFails(sv, text, items, on, i + 1);
          return;
        }
      }
      assert items[..|items|] == items;
    }

    /** The file of one target: snapshot, patch, write, read back. */
    method WriteTarget(t: Target, items: seq<Item>, on: bool, fate: Fate) returns (ok: bool)
      modifies this`files, this`snapshots
      ensures ok <==> GroupSucceeds(sv, old(files), t, items, on, InFile(fate))
      ensures ok ==> files == old(files)[t.path := Patched(sv, old(files), t, items, on).value]
      ensures ok ==> snapshots == old(snapshots) + [SnapshotOf(sv, old(files), t)]
      ensures snapshots in {old(snapshots), old(snapshots) + [SnapshotOf(sv, old(files), t)]}
      ensures snapshots == old(snapshots) ==> files == old(files)
      ensures files - {t.path} == old(files) - {t.path}
    {
      if fate.FailsEarly? {
        return false;
      }
      var original := TextOf(sv, files, t);
      snapshots := snapshots + [Snapshot(t, sv.redact(original))];
      var patched := PatchDocument(original, items, on);
      if patched.None? || fate.FailsWriting? {
        return false;
      }
      files := files[t.path := patched.value];
      if fate.FailsAfterRename? {
        return false;
      }
      if fate.Disturbed? {
        files := files[t.path := fate.found];
        if fate.found != patched.value {
          if fate.putBack {
            files := files[t.path := original];
          }
          return false;
        }
      }
      ok := true;
    }

    /** The rows and events of one target, item by item; either statement may fail. */
    method RecordItems(t: Target, items: seq<Item>, on: bool, snapshot: nat, fate: Fate) returns (ok: bool)
      requires DistinctItems(items) && forall x :: x in items ==> x.id in rows
      modifies this`rows, this`events
      ensures ok <==> !((fate.RowFails? || fate.EventFails?) && fate.at < |items|)
      ensures rows == SwitchRows(
                        old(rows),
                          items[..if ok then |items| else if fate.EventFails? then fate.at + 1 else fate.at], on)
      ensures events == old(events) + EventsFor(items[..if ok then |items| else fate.at], on, t, snapshot)
    {
      NothingSwitched(rows, items, on);
      for i := 0 to |items|
        invariant fate.RowFails? || fate.EventFails? ==> fate.at >= i
        invariant rows == SwitchRows(old(rows), items[..i], on)
        invariant events == old(events) + EventsFor(items[..i], on, t, snapshot)
      {
        if fate == RowFails(i) {
          return false;
        }
        var x := items[i];
        assert x in items;
        NextSwitched(old(rows), items, i, on);
        NextEvent(old(events), items, i, on, t, snapshot);
        rows := rows[x.id := Switched(rows[x.id], on)];
        if fate == EventFails(i) {
          return false;
        }
        events := events + [ToggleEvent(x.id, on, x.meta.enabled, t, snapshot)];
      }
      ok := true;
    }

    method ApplySkillToggleGroup(t: Target, items: seq<Item>, on: bool, fate: Fate) returns (ok: bool)
      requires DistinctItems(items) && forall x :: x in items ==> x.id in rows
      modifies this
      ensures ok <==> GroupSucceeds(sv, old(files), t, items, on, fate)
      ensures ok ==> GroupApplied(sv, old(Now()), Now(), t, items, on)
      ensures !ok ==> GroupFailed(sv, old(Now()), Now(), t, items, on, fate)
    {
      var written := WriteTarget(t, items, on, fate);
      if !written {
        FailedInFile(sv, old(Now()), Now(), t, items, on, fate);
        return false;
      }
      ok := RecordItems(t, items, on, |snapshots| - 1, fate);
      RecordedAfterWrite(sv, old(Now()), Now(), t, items, on, fate, ok);
    }

    /**
     * One batch: nothing without the token of the present preview, otherwise one target after the other up to the
     * first one that fails. The records of the items are read again before the first target, if they can be.
     */
    method ApplySkillToggles(
      ids: seq<string>, on: bool, token: string, tokenOf: Preview -> string, readable: bool, fate: Target -> Fate)
      returns (r: Result<nat, BatchError>)
      modifies this
      ensures
        var items := PreviewOf(old(rows), targetOf, ids, on).affected;
        && (r == Err(StalePreview) <==> tokenOf(PreviewOf(old(rows), targetOf, ids, on)) != token)
        && (r == Err(NothingWritable) <==> tokenOf(PreviewOf(old(rows), targetOf, ids, on)) == token && items == [])
        && (r == Err(StalePreview) || r == Err(NothingWritable) || !readable ==> r.Err? && Now() == old(Now()))
        && (r.Ok? ==> r.value == |items| && Completed(sv, old(Now()), Now(), items, on))
        && (r == Err(Failed) && readable ==> Stopped(sv, old(Now()), Now(), items, on, fate))
        && (r.Ok? || r == Err(Failed) ==>
              DistinctPaths(items) ==> (r.Ok? <==> readable && EveryTargetSucceeds(sv, old(files), items, on, fate)))
      ensures r.Ok? ==> PreviewOf(rows, targetOf, ids, on).affected == []
    {
      var preview := PreviewSkillToggles(rows, targetOf, ids, on);
      if tokenOf(preview) != token {
        return Err(StalePreview);
      }
      if preview.affected == [] {
        return Err(NothingWritable);
      }
      if !readable {
        return Err(Failed);
      }
      PreviewPartitions(rows, targetOf, ids, on, |ids|);
      r := ApplyItems(preview.affected, on, fate);
      if r.Ok? {
        CompletedRows(sv, old(Now()), Now(), preview.affected, on);
        SwitchedPreviewIsEmpty(old(rows), rows, targetOf, ids, on);
      }
    }

    method ApplyItems(items: seq<Item>, on: bool, fate: Target -> Fate) returns (r: Result<nat, BatchError>)
      requires DistinctItems(items) && forall x :: x in items ==> x.id in rows
      modifies this
      ensures r.Ok? ==> r.value == |items| && Completed(sv, old(Now()), Now(), items, on)
      ensures r.Err? ==> r == Err(Failed) && Stopped(sv, old(Now()), Now(), items, on, fate)
      ensures DistinctPaths(items) ==> (r.Ok? <==> EveryTargetSucceeds(sv, old(files), items, on, fate))
    {
      var groups := GroupByTarget(items);
      TargetsAreGroups(items, groups);
      var ok, done, applied := ApplyGroups(Now(), items, groups, on, fate);
      if ok {
        InOrderIsAll(items, done);
        r := Ok(applied);
      } else {
        r := Err(Failed);
      }
    }

    method ApplyGroups(
      ghost before: State, items: seq<Item>, groups: map<Target, seq<Item>>, on: bool, fate: Target -> Fate)
      returns (ok: bool, ghost done: seq<Target>, applied: nat)
      requires DistinctItems(items) && (forall x :: x in items ==> x.id in before.rows) && before == Now()
      requires IsGrouping(items, groups) && groups.Keys == TargetsOf(items)
      modifies this
      ensures ok ==> OrdersTargets(done, items) && BatchApplied(sv, before, Now(), items, done, on)
      ensures ok ==> applied == |InOrder(items, done)|
      ensures !ok ==> Stopped(sv, before, Now(), items, on, fate)
      ensures DistinctPaths(items) ==> (ok <==> EveryTargetSucceeds(sv, before.files, items, on, fate))
    {
      done := [];
      var pending := groups.Keys;
      applied := 0;
      while pending != {}
        invariant Pending(groups.Keys, pending, done)
        invariant BatchApplied(sv, before, Now(), items, done, on)
        invariant applied == |InOrder(items, done)|
        invariant DistinctPaths(items) ==> AllSucceed(sv, before.files, items, done, on, fate)
      {
        var t :| t in pending;
        ok := ApplyTarget(before, items, done, t, groups, on, fate);
        if !ok {
          return;
        }
        OneLess(groups.Keys, pending, done, t);
        assert (done + [t])[..|done|] == done;
        applied := applied + |groups[t]|;
        pending, done := pending - {t}, done + [t];
      }
      ok := true;
    }

    method ApplyTarget(
      ghost before: State, items: seq<Item>, ghost done: seq<Target>, t: Target, groups: map<Target, seq<Item>>,
      on: bool, fate: Target -> Fate) returns (ok: bool)
      requires DistinctItems(items) && (forall x :: x in items ==> x.id in before.rows)
      requires IsGrouping(items, groups) && groups.Keys == TargetsOf(items)
      requires DistinctTargets(done) && (forall u :: u in done ==> u in groups) && t in groups && t !in done
      requires BatchApplied(sv, before, Now(), items, done, on)
      requires DistinctPaths(items) ==> AllSucceed(sv, before.files, items, done, on, fate)
      modifies this
      ensures ok ==> BatchApplied(sv, before, Now(), items, done + [t], on)
      ensures ok && DistinctPaths(items) ==> AllSucceed(sv, before.files, items, done + [t], on, fate)
      ensures !ok ==> Stopped(sv, before, Now(), items, on, fate)
      ensures !ok && DistinctPaths(items) ==> !EveryTargetSucceeds(sv, before.files, items, on, fate)
    {
      ghost var mid := Now();
      ForTargetMembers(items, t);
      RowsStay(sv, before, mid, items, done, on);
      ok := ApplySkillToggleGroup(t, groups[t], on, fate(t));
      ok := ok && !fate(t).ReadFails?;
      if ok {
        TargetApplied(sv, before, mid, Now(), items, done, t, on);
      } else {
        StopsHere(sv, before, mid, Now(), items, done, t, on, fate);
      }
      if DistinctPaths(items) {
        NextSucceeds(sv, before, mid, items, done, t, on, fate);
      }
    }
  }

  lemma StopsHere(
    sv: Services, before: State, mid: State, after: State, items: seq<Item>, done: seq<Target>, t: Target, on: bool,
    fate: Target -> Fate)
    requires DistinctTargets(done) && t !in done && t in TargetsOf(items)
    requires forall u :: u in done ==> u in TargetsOf(items)
    requires BatchApplied(sv, before, mid, items, done, on)
    requires !TargetSucceeds(sv, mid.files, t, ForTarget(items, t), on, fate(t))
    requires if GroupSucceeds(sv, mid.files, t, ForTarget(items, t), on, fate(t)) then
               GroupApplied(sv, mid, after, t, ForTarget(items, t), on)
             else
               GroupFailed(sv, mid, after, t, ForTarget(items, t), on, fate(t))
    ensures Stopped(sv, before, after, items, on, fate)
  {
    assert StoppedAt(sv, before, mid, after, items, done, t, on, fate);
  }

  /** With a file of its own, a target succeeds or fails as it would have at the start. */
  lemma NextSucceeds(
    sv: Services, before: State, mid: State, items: seq<Item>, done: seq<Target>, t: Target, on: bool,
    fate: Target -> Fate)
    requires BatchApplied(sv, before, mid, items, done, on) && DistinctPaths(items)
    requires t in TargetsOf(items) && t !in done && forall u :: u in done ==> u in TargetsOf(items)
    requires AllSucceed(sv, before.files, items, done, on, fate)
    ensures if TargetSucceeds(sv, mid.files, t, ForTarget(items, t), on, fate(t))
            then AllSucceed(sv, before.files, items, done + [t], on, fate)
            else !EveryTargetSucceeds(sv, before.files, items, on, fate)
  {
    OwnFileIsUntouched(sv, before, mid, items, done, t, on);
  }

  lemma TargetApplied(
    sv: Services, before: State, mid: State, after: State, items: seq<Item>, done: seq<Target>, t: Target, on: bool)
    requires BatchApplied(sv, before, mid, items, done, on) && GroupApplied(sv, mid, after, t, ForTarget(items, t), on)
    ensures BatchApplied(sv, before, after, items, done + [t], on)
  {
    assert (done + [t])[..|done|] == done;
  }

  // ----- what a complete batch did ----------------------------------------------------------

  ghost predicate AllSucceed(
    sv: Services, files: Files, items: seq<Item>, order: seq<Target>, on: bool, fate: Target -> Fate)
  {
    forall t :: t in order ==> TargetSucceeds(sv, files, t, ForTarget(items, t), on, fate(t))
  }

  ghost predicate Pending(all: set<Target>, pending: set<Target>, done: seq<Target>) {
    DistinctTargets(done) && pending <= all && forall t :: t in done <==> t in all && t !in pending
  }

  lemma OneLess(all: set<Target>, pending: set<Target>, done: seq<Target>, t: Target)
    requires Pending(all, pending, done) && t in pending
    ensures Pending(all, pending - {t}, done + [t])
  {
  }

  lemma {:induction false} RowsStay(
    sv: Services, before: State, after: State, items: seq<Item>, order: seq<Target>, on: bool)
    requires BatchApplied(sv, before, after, items, order, on)
    ensures after.rows.Keys == before.rows.Keys
    decreases |order|
  {
    if order != [] {
      var fewer, t := order[..|order| - 1], order[|order| - 1];
      var mid := BatchResult(sv, before, items, fewer, on).value;
      RowsStay(sv, before, mid, items, fewer, on);
    }
  }

  /** A file changes only with the targets that have its path. */
  lemma {:induction false} OtherFilesStay(
    sv: Services, before: State, after: State, items: seq<Item>, order: seq<Target>, on: bool, path: string)
    requires BatchApplied(sv, before, after, items, order, on) && forall t :: t in order ==> t.path != path
    ensures path in after.files <==> path in before.files
    ensures path in before.files ==> after.files[path] == before.files[path]
    decreases |order|
  {
    if order != [] {
      var fewer, t := order[..|order| - 1], order[|order| - 1];
      var mid := BatchResult(sv, before, items, fewer, on).value;
      assert t in order && forall u :: u in fewer ==> u in order;
      OtherFilesStay(sv, before, mid, items, fewer, on, path);
    }
  }

  lemma OwnFileIsUntouched(
    sv: Services, before: State, mid: State, items: seq<Item>, done: seq<Target>, t: Target, on: bool)
    requires BatchApplied(sv, before, mid, items, done, on) && DistinctPaths(items)
    requires t in TargetsOf(items) && t !in done && forall u :: u in done ==> u in TargetsOf(items)
    ensures TextOf(sv, mid.files, t) == TextOf(sv, before.files, t)
  {
    OtherFilesStay(sv, before, mid, items, done, on, t.path);
  }

  /** A file that only one target has is patched for all items of that target. */
  lemma {:induction false} SoleTargetIsPatched(
    sv: Services, before: State, after: State, items: seq<Item>, order: seq<Target>, on: bool, t: Target)
    requires BatchApplied(sv, before, after, items, order, on) && DistinctTargets(order)
    requires t in order && forall u :: u in order && u.path == t.path ==> u == t
    ensures t.path in after.files && Patched(sv, before.files, t, ForTarget(items, t), on) == Some(after.files[t.path])
    ensures SnapshotOf(sv, before.files, t) in after.snapshots
    decreases |order|
  {
    var fewer, last := order[..|order| - 1], order[|order| - 1];
    var mid := BatchResult(sv, before, items, fewer, on).value;
    assert order == fewer + [last];
    if last == t {
      OtherFilesStay(sv, before, mid, items, fewer, on, t.path);
      assert TextOf(sv, mid.files, t) == TextOf(sv, before.files, t);
    } else {
      SoleTargetIsPatched(sv, before, mid, items, fewer, on, t);
    }
  }

  function SnapshotTargets(snapshots: seq<Snapshot>): (r: seq<Target>)
    ensures |r| == |snapshots|
  {
    seq(|snapshots|, i requires 0 <= i < |snapshots| => snapshots[i].target)
  }

  lemma OneMoreSnapshot(snapshots: seq<Snapshot>, last: Snapshot)
    ensures SnapshotTargets(snapshots + [last]) == SnapshotTargets(snapshots) + [last.target]
  {
  }

  lemma TargetsAppend(a: seq<Target>, b: seq<Target>, t: Target)
    ensures a + b + [t] == a + (b + [t])
  {
  }

  lemma GroupTakesSnapshot(sv: Services, before: State, after: State, t: Target, group: seq<Item>, on: bool)
    requires GroupApplied(sv, before, after, t, group, on)
    ensures before.snapshots <= after.snapshots
    ensures SnapshotTargets(after.snapshots) == SnapshotTargets(before.snapshots) + [t]
  {
    OneMoreSnapshot(before.snapshots, SnapshotOf(sv, before.files, t));
  }

  /** One snapshot for each target, in the order of the work. */
  lemma {:induction false} SnapshotPerTarget(
    sv: Services, before: State, after: State, items: seq<Item>, order: seq<Target>, on: bool)
    requires BatchApplied(sv, before, after, items, order, on)
    ensures before.snapshots <= after.snapshots
    ensures SnapshotTargets(after.snapshots) == SnapshotTargets(before.snapshots) + order
    decreases |order|
  {
    if order != [] {
      var fewer, t := order[..|order| - 1], order[|order| - 1];
      var mid := BatchResult(sv, before, items, fewer, on).value;
      SnapshotPerTarget(sv, before, mid, items, fewer, on);
      GroupTakesSnapshot(sv, mid, after, t, ForTarget(items, t), on);
      TargetsAppend(SnapshotTargets(before.snapshots), fewer, t);
      assert order == fewer + [t];
    }
  }

  /** The items of the targets are switched and no other row is touched. */
  lemma {:induction false} BatchRows(
    sv: Services, before: State, after: State, items: seq<Item>, order: seq<Target>, on: bool)
    requires BatchApplied(sv, before, after, items, order, on)
    ensures after.rows == SwitchRows(before.rows, InOrder(items, order), on)
    decreases |order|
  {
    if order != [] {
      var fewer, t := order[..|order| - 1], order[|order| - 1];
      var mid := BatchResult(sv, before, items, fewer, on).value;
      BatchRows(sv, before, mid, items, fewer, on);
      SwitchTwice(before.rows, InOrder(items, fewer), ForTarget(items, t), on);
    }
  }

  lemma SwitchTwice(rows: Rows, a: seq<Item>, b: seq<Item>, on: bool)
    ensures SwitchRows(SwitchRows(rows, a, on), b, on) == SwitchRows(rows, a + b, on)
  {
    forall id ensures HasItem(a + b, id) <==> HasItem(a, id) || HasItem(b, id) {
      ItemsJoined(a, b, id);
    }
  }

  lemma ItemsJoined(a: seq<Item>, b: seq<Item>, id: string)
    ensures HasItem(a + b, id) <==> HasItem(a, id) || HasItem(b, id)
  {
    if HasItem(a, id) {
      var k :| 0 <= k < |a| && a[k].id == id;
      assert (a + b)[k].id == id;
    }
    if HasItem(b, id) {
      var k :| 0 <= k < |b| && b[k].id == id;
      assert (a + b)[|a| + k].id == id;
    }
  }

  function EventCount(events: seq<ToggleEvent>, id: string): nat {
    if events == [] then 0 else EventCount(events[..|events| - 1], id) + if events[|events| - 1].id == id then 1 else 0
  }

  /** An event tells of an item, and names a snapshot of the item's target. */
  ghost predicate ReportsItem(e: ToggleEvent, items: seq<Item>, snapshots: seq<Snapshot>, on: bool) {
    && e.snapshot < |snapshots| && snapshots[e.snapshot].target == e.target
    && exists x :: x in items && e.id == x.id && e.on == on && e.previous == x.meta.enabled && e.target == x.target
  }

  /** One event for each switched item. */
  lemma {:induction false} BatchEventCount(
    sv: Services, before: State, after: State, items: seq<Item>, order: seq<Target>, on: bool, id: string)
    requires BatchApplied(sv, before, after, items, order, on) && DistinctItems(items) && DistinctTargets(order)
    ensures EventCount(after.events, id) ==
            EventCount(before.events, id) + if HasItem(InOrder(items, order), id) then 1 else 0
    decreases |order|
  {
    if order != [] {
      var fewer, t := order[..|order| - 1], order[|order| - 1];
      var mid := BatchResult(sv, before, items, fewer, on).value;
      BatchEventCount(sv, before, mid, items, fewer, on, id);
      assert order == fewer + [t] && t !in fewer;
      ForTargetMembers(items, t);
      CountEvents(mid.events, ForTarget(items, t), on, t, |mid.snapshots|, id);
      ItemsJoined(InOrder(items, fewer), ForTarget(items, t), id);
      NotBoth(items, fewer, t, id);
    }
  }

  /** No events but those of items. */
  lemma {:induction false} BatchReports(
    sv: Services, before: State, after: State, items: seq<Item>, order: seq<Target>, on: bool)
    requires BatchApplied(sv, before, after, items, order, on) && DistinctItems(items)
    ensures before.events <= after.events
    ensures forall k :: |before.events| <= k < |after.events| ==>
            ReportsItem(after.events[k], items, after.snapshots, on)
    decreases |order|
  {
    if order != [] {
      var fewer, t := order[..|order| - 1], order[|order| - 1];
      var mid := BatchResult(sv, before, items, fewer, on).value;
      BatchReports(sv, before, mid, items, fewer, on);
      GroupReports(sv, mid, after, items, t, on);
      forall k | |before.events| <= k < |mid.events| ensures ReportsItem(after.events[k], items, after.snapshots, on) {
        assert after.events[k] == mid.events[k] && ReportsItem(mid.events[k], items, mid.snapshots, on);
      }
    }
  }

  lemma GroupReports(sv: Services, before: State, after: State, items: seq<Item>, t: Target, on: bool)
    requires GroupApplied(sv, before, after, t, ForTarget(items, t), on) && DistinctItems(items)
    ensures forall k :: |before.events| <= k < |after.events| ==>
            ReportsItem(after.events[k], items, after.snapshots, on)
  {
    var group := ForTarget(items, t);
    ForTargetMembers(items, t);
    forall k | |before.events| <= k < |after.events| ensures ReportsItem(after.events[k], items, after.snapshots, on) {
      assert group[k - |before.events|] in group;
    }
  }

  lemma NotBoth(items: seq<Item>, order: seq<Target>, t: Target, id: string)
    requires DistinctItems(items) && t !in order && DistinctTargets(order)
    ensures !(HasItem(InOrder(items, order), id) && HasItem(ForTarget(items, t), id))
  {
    InOrderMembers(items, order);
    ForTargetMembers(items, t);
    var a, b := InOrder(items, order), ForTarget(items, t);
    forall k, l | 0 <= k < |a| && 0 <= l < |b| ensures a[k].id != b[l].id {
      assert a[k] in a && b[l] in b;
      SameIdSameItem(items, a[k], b[l]);
    }
  }

  lemma SameIdSameItem(items: seq<Item>, x: Item, y: Item)
    requires DistinctItems(items) && x in items && y in items
    ensures x.id == y.id ==> x == y
  {
  }

  lemma {:induction false} InOrderMembers(items: seq<Item>, order: seq<Target>)
    requires DistinctItems(items) && DistinctTargets(order)
    ensures forall x :: x in InOrder(items, order) <==> x in items && x.target in order
    ensures |InOrder(items, order)| == CountIn(items, set t | t in order)
  {
    if order == [] {
      NothingCounted(items);
      assert (set t | t in order) == {};
    } else {
      var fewer, last := order[..|order| - 1], order[|order| - 1];
      InOrderMembers(items, fewer);
      ForTargetMembers(items, last);
      assert order == fewer + [last] && last !in fewer;
      OneMoreTarget(items, fewer, last);
    }
  }

  lemma OneMoreTarget(items: seq<Item>, fewer: seq<Target>, last: Target)
    requires last !in fewer
    ensures CountIn(items, set t | t in fewer + [last]) ==
            CountIn(items, set t | t in fewer) + |ForTarget(items, last)|
  {
    CountNext(items, (set t | t in fewer), last);
    assert (set t | t in fewer + [last]) == (set t | t in fewer) + {last};
  }

  lemma InOrderIsAll(items: seq<Item>, order: seq<Target>)
    requires DistinctItems(items) && OrdersTargets(order, items)
    ensures forall x :: x in InOrder(items, order) <==> x in items
    ensures |InOrder(items, order)| == |items|
  {
    InOrderMembers(items, order);
    CountAll(items, set t | t in order);
    forall x | x in items ensures x.target in order {
      var k :| 0 <= k < |items| && items[k] == x;
      assert items[k].target in TargetsOf(items);
    }
  }

  /** A complete batch switches exactly the items. */
  lemma CompletedRows(sv: Services, before: State, after: State, items: seq<Item>, on: bool)
    requires Completed(sv, before, after, items, on) && DistinctItems(items)
    ensures after.rows == SwitchRows(before.rows, items, on)
  {
    var order :| OrdersTargets(order, items) && BatchApplied(sv, before, after, items, order, on);
    BatchRows(sv, before, after, items, order, on);
    InOrderIsAll(items, order);
    SameItemsSwitchAlike(before.rows, InOrder(items, order), items, on);
  }

  lemma SameItemsSwitchAlike(rows: Rows, a: seq<Item>, b: seq<Item>, on: bool)
    requires forall x :: x in a <==> x in b
    ensures SwitchRows(rows, a, on) == SwitchRows(rows, b, on)
  {
    forall id ensures HasItem(a, id) <==> HasItem(b, id) {
      if HasItem(a, id) {
        var k :| 0 <= k < |a| && a[k].id == id;
        assert a[k] in b;
      }
      if HasItem(b, id) {
        var k :| 0 <= k < |b| && b[k].id == id;
        assert b[k] in a;
      }
    }
  }

  /** A complete batch: exactly the items switched with one event each, and one snapshot for each distinct target. */
  lemma CompletedBatch(sv: Services, before: State, after: State, items: seq<Item>, on: bool)
    requires Completed(sv, before, after, items, on) && DistinctItems(items)
    ensures after.rows == SwitchRows(before.rows, items, on)
    ensures |after.snapshots| == |before.snapshots| + |TargetsOf(items)|
    ensures forall id ::
              EventCount(after.events, id) == EventCount(before.events, id) + if HasItem(items, id) then 1 else 0
    ensures forall k :: |before.events| <= k < |after.events| ==>
            ReportsItem(after.events[k], items, after.snapshots, on)
    ensures forall path :: (forall t :: t in TargetsOf(items) ==> t.path != path) ==>
              (path in after.files <==> path in before.files) &&
              (path in before.files ==> after.files[path] == before.files[path])
  {
    CompletedRows(sv, before, after, items, on);
    var order :| OrdersTargets(order, items) && BatchApplied(sv, before, after, items, order, on);
    SnapshotPerTarget(sv, before, after, items, order, on);
    OrderLength(order, items);
    BatchReports(sv, before, after, items, order, on);
    InOrderIsAll(items, order);
    forall id
      ensures EventCount(after.events, id) == EventCount(before.events, id) + if HasItem(items, id) then 1 else 0
    {
      BatchEventCount(sv, before, after, items, order, on, id);
      SameItems(InOrder(items, order), items, id);
    }
    forall path | forall t :: t in TargetsOf(items) ==> t.path != path
      ensures (path in after.files <==> path in before.files) &&
              (path in before.files ==> after.files[path] == before.files[path])
    {
      OtherFilesStay(sv, before, after, items, order, on, path);
    }
  }

  lemma SameItems(a: seq<Item>, b: seq<Item>, id: string)
    requires forall x :: x in a <==> x in b
    ensures HasItem(a, id) <==> HasItem(b, id)
  {
    if HasItem(a, id) {
      var k :| 0 <= k < |a| && a[k].id == id;
      assert a[k] in b;
    }
    if HasItem(b, id) {
      var k :| 0 <= k < |b| && b[k].id == id;
      assert b[k] in a;
    }
  }

  lemma OrderLength(order: seq<Target>, items: seq<Item>)
    requires OrdersTargets(order, items)
    ensures |order| == |TargetsOf(items)|
  {
    DistinctLength(order, TargetsOf(items));
  }

  lemma {:induction false} DistinctLength(order: seq<Target>, all: set<Target>)
    requires DistinctTargets(order) && forall t :: t in order <==> t in all
    ensures |order| == |all|
  {
    if order == [] {
      assert all == {};
    } else {
      var fewer, last := order[..|order| - 1], order[|order| - 1];
      assert order == fewer + [last];
      DistinctLength(fewer, all - {last});
    }
  }

  // ----- what a stopped batch did -----------------------------------------------------------

  /**
   * A batch that stopped has switched only items, changed only files of its targets, added only events of items, and
   * kept all earlier snapshots and events.
   */
  lemma StoppedTouchesOnlyItems(
    sv: Services, before: State, after: State, items: seq<Item>, on: bool, fate: Target -> Fate)
    requires Stopped(sv, before, after, items, on, fate) && DistinctItems(items)
    ensures after.rows.Keys == before.rows.Keys
    ensures forall id :: id in before.rows && after.rows[id] != before.rows[id] ==>
              HasItem(items, id) && after.rows[id] == Switched(before.rows[id], on)
    ensures before.snapshots <= after.snapshots && before.events <= after.events
    ensures forall k :: |before.events| <= k < |after.events| ==> HasItem(items, after.events[k].id)
    ensures forall path :: (forall t :: t in TargetsOf(items) ==> t.path != path) ==>
              (path in after.files <==> path in before.files) &&
              (path in before.files ==> after.files[path] == before.files[path])
  {
    var mid, done, t :| StoppedAt(sv, before, mid, after, items, done, t, on, fate);
    StoppedRows(sv, before, mid, after, items, done, t, on, fate);
    StoppedRecords(sv, before, mid, after, items, done, t, on, fate);
    forall path | forall u :: u in TargetsOf(items) ==> u.path != path
      ensures path in after.files <==> path in before.files
      ensures path in before.files ==> after.files[path] == before.files[path]
    {
      StoppedFiles(sv, before, mid, after, items, done, t, on, fate, path);
    }
  }

  /** The items whose rows are switched when a batch stops, and those with events. */
  ghost function SwitchedItems(
    sv: Services, mid: State, items: seq<Item>, done: seq<Target>, t: Target, on: bool, fate: Fate): seq<Item>
  {
    InOrder(items, done) + ForTarget(items, t)[..RowsDone(sv, mid.files, t, ForTarget(items, t), on, fate)]
  }

  ghost function ReportedItems(
    sv: Services, mid: State, items: seq<Item>, done: seq<Target>, t: Target, on: bool, fate: Fate): seq<Item>
  {
    InOrder(items, done) + ForTarget(items, t)[..EventsDone(sv, mid.files, t, ForTarget(items, t), on, fate)]
  }

  lemma AppliedIsRecorded(
    sv: Services, before: State, after: State, t: Target, items: seq<Item>, on: bool, fate: Fate)
    requires GroupSucceeds(sv, before.files, t, items, on, fate) && GroupApplied(sv, before, after, t, items, on)
    ensures Recorded(sv, before, after, t, items, on, fate)
    ensures before.snapshots <= after.snapshots && after.files - {t.path} == before.files - {t.path}
  {
    assert items[..|items|] == items;
    var text := Patched(sv, before.files, t, items, on).value;
    assert after.files == before.files[t.path := text];
  }

  lemma FailedIsRecorded(
    sv: Services, before: State, after: State, t: Target, items: seq<Item>, on: bool, fate: Fate)
    requires GroupFailed(sv, before, after, t, items, on, fate)
    ensures Recorded(sv, before, after, t, items, on, fate)
    ensures before.snapshots <= after.snapshots && after.files - {t.path} == before.files - {t.path}
  {
  }

  /** Applied or failed, the last target has recorded what its fate lets through. */
  lemma LastIsRecorded(
    sv: Services, before: State, mid: State, after: State, items: seq<Item>, done: seq<Target>, t: Target, on: bool,
    fate: Target -> Fate)
    requires StoppedAt(sv, before, mid, after, items, done, t, on, fate)
    ensures Recorded(sv, mid, after, t, ForTarget(items, t), on, fate(t))
    ensures mid.snapshots <= after.snapshots && mid.events <= after.events
    ensures after.files - {t.path} == mid.files - {t.path}
  {
    var group := ForTarget(items, t);
    if GroupSucceeds(sv, mid.files, t, group, on, fate(t)) {
      AppliedIsRecorded(sv, mid, after, t, group, on, fate(t));
    } else {
      FailedIsRecorded(sv, mid, after, t, group, on, fate(t));
    }
  }

  lemma StoppedRows(
    sv: Services, before: State, mid: State, after: State, items: seq<Item>, done: seq<Target>, t: Target, on: bool,
    fate: Target -> Fate)
    requires StoppedAt(sv, before, mid, after, items, done, t, on, fate) && DistinctItems(items)
    ensures after.rows == SwitchRows(before.rows, SwitchedItems(sv, mid, items, done, t, on, fate(t)), on)
    ensures forall id :: HasItem(SwitchedItems(sv, mid, items, done, t, on, fate(t)), id) ==> HasItem(items, id)
  {
    LastIsRecorded(sv, before, mid, after, items, done, t, on, fate);
    BatchRows(sv, before, mid, items, done, on);
    var part := ForTarget(items, t)[..RowsDone(sv, mid.files, t, ForTarget(items, t), on, fate(t))];
    SwitchTwice(before.rows, InOrder(items, done), part, on);
    assert done == (done + [t])[..|done|];
    InOrderMembers(items, done);
    ForTargetMembers(items, t);
    PartIsOfItems(items, SwitchedItems(sv, mid, items, done, t, on, fate(t)));
  }

  lemma StoppedRecords(
    sv: Services, before: State, mid: State, after: State, items: seq<Item>, done: seq<Target>, t: Target, on: bool,
    fate: Target -> Fate)
    requires StoppedAt(sv, before, mid, after, items, done, t, on, fate) && DistinctItems(items)
    ensures before.snapshots <= after.snapshots && before.events <= after.events
    ensures forall k :: |before.events| <= k < |after.events| ==> HasItem(items, after.events[k].id)
  {
    LastIsRecorded(sv, before, mid, after, items, done, t, on, fate);
    SnapshotPerTarget(sv, before, mid, items, done, on);
    BatchReports(sv, before, mid, items, done, on);
    ForTargetMembers(items, t);
    var part := ForTarget(items, t)[..EventsDone(sv, mid.files, t, ForTarget(items, t), on, fate(t))];
    NewEventsAreOfItems(items, mid.events, part, on, t, |mid.snapshots|);
    forall k | |before.events| <= k < |mid.events| ensures HasItem(items, after.events[k].id) {
      assert after.events[k] == mid.events[k] && ReportsItem(mid.events[k], items, mid.snapshots, on);
    }
  }

  lemma StoppedEventCount(
    sv: Services, before: State, mid: State, after: State, items: seq<Item>, done: seq<Target>, t: Target, on: bool,
    fate: Target -> Fate, id: string)
    requires StoppedAt(sv, before, mid, after, items, done, t, on, fate) && DistinctItems(items)
    ensures EventCount(after.events, id) ==
            EventCount(before.events, id) +
            if HasItem(ReportedItems(sv, mid, items, done, t, on, fate(t)), id) then 1 else 0
  {
    LastIsRecorded(sv, before, mid, after, items, done, t, on, fate);
    assert done == (done + [t])[..|done|] && t == (done + [t])[|done|];
    BatchEventCount(sv, before, mid, items, done, on, id);
    ForTargetMembers(items, t);
    var group := ForTarget(items, t);
    var part := group[..EventsDone(sv, mid.files, t, group, on, fate(t))];
    CountEvents(mid.events, part, on, t, |mid.snapshots|, id);
    ItemsJoined(InOrder(items, done), part, id);
    NotBoth(items, done, t, id);
    PartHasFewer(group, |part|, id);
  }

  lemma PartHasFewer(items: seq<Item>, n: nat, id: string)
    requires n <= |items|
    ensures HasItem(items[..n], id) ==> HasItem(items, id)
  {
  }

  ghost predicate IsSwitched(before: State, after: State, id: string) {
    id in before.rows && id in after.rows && after.rows[id] != before.rows[id]
  }

  /** Items that are as the preview saw them: present, and not yet switched. */
  ghost predicate StillToSwitch(before: State, items: seq<Item>, on: bool) {
    forall x :: x in items ==> x.id in before.rows && before.rows[x.id].enabled != on
  }

  /** The item whose row is switched without an event. */
  ghost predicate IsCut(sv: Services, mid: State, group: seq<Item>, t: Target, on: bool, fate: Fate, id: string) {
    CutBetween(sv, mid.files, t, group, on, fate) && id == group[fate.at].id
  }

  /** In a stopped batch each switched row has one new event, but for the one whose event could not be inserted. */
  lemma StoppedEvents(
    sv: Services, before: State, mid: State, after: State, items: seq<Item>, done: seq<Target>, t: Target, on: bool,
    fate: Target -> Fate, id: string)
    requires StoppedAt(sv, before, mid, after, items, done, t, on, fate)
    requires DistinctItems(items) && StillToSwitch(before, items, on)
    ensures IsCut(sv, mid, ForTarget(items, t), t, on, fate(t), id) ==> IsSwitched(before, after, id)
    ensures EventCount(after.events, id) ==
            EventCount(before.events, id) +
            if IsSwitched(before, after, id) && !IsCut(sv, mid, ForTarget(items, t), t, on, fate(t), id) then 1 else 0
  {
    StoppedRows(sv, before, mid, after, items, done, t, on, fate);
    StoppedEventCount(sv, before, mid, after, items, done, t, on, fate, id);
    CutIsTheDifference(sv, before, mid, after, items, done, t, on, fate, id);
    SwitchedExactly(before.rows, items, SwitchedItems(sv, mid, items, done, t, on, fate(t)), on, id);
  }

  lemma SwitchedExactly(rows: Rows, items: seq<Item>, part: seq<Item>, on: bool, id: string)
    requires forall x :: x in items ==> x.id in rows && rows[x.id].enabled != on
    requires HasItem(part, id) ==> HasItem(items, id)
    ensures HasItem(part, id) <==> id in rows && SwitchRows(rows, part, on)[id] != rows[id]
  {
    if HasItem(part, id) {
      var k :| 0 <= k < |items| && items[k].id == id;
      assert items[k] in items;
    }
  }

  lemma CutIsTheDifference(
    sv: Services, before: State, mid: State, after: State, items: seq<Item>, done: seq<Target>, t: Target, on: bool,
    fate: Target -> Fate, id: string)
    requires StoppedAt(sv, before, mid, after, items, done, t, on, fate) && DistinctItems(items)
    ensures
      var cut := IsCut(sv, mid, ForTarget(items, t), t, on, fate(t), id);
      var switched := HasItem(SwitchedItems(sv, mid, items, done, t, on, fate(t)), id);
      var reported := HasItem(ReportedItems(sv, mid, items, done, t, on, fate(t)), id);
      (cut ==> switched) && (reported <==> switched && !cut)
  {
    var group := ForTarget(items, t);
    DoneCounts(sv, mid.files, t, group, on, fate(t));
    assert done == (done + [t])[..|done|] && t == (done + [t])[|done|];
    ForTargetMembers(items, t);
    NotBoth(items, done, t, id);
    PartsDiffer(
      InOrder(items, done), group, RowsDone(sv, mid.files, t, group, on, fate(t)),
      EventsDone(sv, mid.files, t, group, on, fate(t)), id);
  }

  lemma DoneCounts(sv: Services, files: Files, t: Target, items: seq<Item>, on: bool, fate: Fate)
    ensures
      var (m, n) := (RowsDone(sv, files, t, items, on, fate), EventsDone(sv, files, t, items, on, fate));
      if CutBetween(sv, files, t, items, on, fate) then m == n + 1 && n == fate.at else m == n
  {
  }

  lemma PartsDiffer(others: seq<Item>, group: seq<Item>, m: nat, n: nat, id: string)
    requires n <= m <= n + 1 && m <= |group| && DistinctItems(group) && !(HasItem(others, id) && HasItem(group, id))
    ensures
      var cut := m == n + 1 && id == group[n].id;
      var (switched, reported) := (HasItem(others + group[..m], id), HasItem(others + group[..n], id));
      (cut ==> switched) && (reported <==> switched && !cut)
  {
    if m == n + 1 {
      OneMoreItem(others, group, n, id);
    }
  }

  lemma OneMoreItem(others: seq<Item>, group: seq<Item>, n: nat, id: string)
    requires DistinctItems(group) && n < |group| && !(HasItem(others, id) && HasItem(group, id))
    ensures HasItem(others + group[..n + 1], id) <==> HasItem(others + group[..n], id) || id == group[n].id
    ensures id == group[n].id ==> !HasItem(others + group[..n], id)
  {
    ItemsJoined(others, group[..n + 1], id);
    ItemsJoined(others, group[..n], id);
    PrefixItems(group, n, id);
    if id == group[n].id {
      assert HasItem(group, id) && !HasItem(group[..n], id);
    }
  }

  ghost predicate EventForEverySwitch(before: State, after: State) {
    forall id ::
      EventCount(after.events, id) == EventCount(before.events, id) + if IsSwitched(before, after, id) then 1 else 0
  }

  /** Every switched row has its event exactly when no insertion of an event failed after its row was switched. */
  lemma EventsMatchUnlessCut(
    sv: Services, before: State, mid: State, after: State, items: seq<Item>, done: seq<Target>, t: Target, on: bool,
    fate: Target -> Fate)
    requires StoppedAt(sv, before, mid, after, items, done, t, on, fate)
    requires DistinctItems(items) && StillToSwitch(before, items, on)
    ensures EventForEverySwitch(before, after) <==> !CutBetween(sv, mid.files, t, ForTarget(items, t), on, fate(t))
  {
    forall id
      ensures EventCount(after.events, id) ==
              EventCount(before.events, id) +
              if IsSwitched(before, after, id) && !IsCut(sv, mid, ForTarget(items, t), t, on, fate(t), id) then 1 else 0
      ensures IsCut(sv, mid, ForTarget(items, t), t, on, fate(t), id) ==> IsSwitched(before, after, id)
    {
      StoppedEvents(sv, before, mid, after, items, done, t, on, fate, id);
    }
    if CutBetween(sv, mid.files, t, ForTarget(items, t), on, fate(t)) {
      var id := ForTarget(items, t)[fate(t).at].id;
      assert IsCut(sv, mid, ForTarget(items, t), t, on, fate(t), id);
    }
  }

  /** A batch of one item whose event cannot be inserted. */
  lemma OneItemIsCut(sv: Services, before: State, x: Item, on: bool, text: string, fate: Target -> Fate)
    returns (after: State)
    requires fate(x.target) == EventFails(0) && x.id in before.rows && before.rows[x.id].enabled != on
    requires sv.patch(TextOf(sv, before.files, x.target), x.meta, on) == Some(text)
    ensures after.rows == before.rows[x.id := Switched(before.rows[x.id], on)]
    ensures after.files == before.files[x.target.path := text] && after.events == before.events
    ensures StoppedAt(sv, before, before, after, [x], [], x.target, on, fate)
  {
    after := State(
      before.rows[x.id := Switched(before.rows[x.id], on)], before.files[x.target.path := text],
      before.snapshots + [SnapshotOf(sv, before.files, x.target)], before.events);
    OnlyItem(sv, before, x, on);
    OnlyItemFails(sv, before, after, x, on, text);
  }

  lemma OnlyItemFails(sv: Services, before: State, after: State, x: Item, on: bool, text: string)
    requires Patched(sv, before.files, x.target, [x], on) == Some(text)
    requires after.rows == SwitchRows(before.rows, [x], on) && after.events == before.events
    requires after.files == before.files[x.target.path := text]
    requires after.snapshots == before.snapshots + [SnapshotOf(sv, before.files, x.target)]
    ensures !GroupSucceeds(sv, before.files, x.target, [x], on, EventFails(0))
    ensures GroupFailed(sv, before, after, x.target, [x], on, EventFails(0))
  {
    DoneCounts(sv, before.files, x.target, [x], on, EventFails(0));
    NoEvents(before.events, x, on, |before.snapshots|);
    assert [x][..1] == [x];
    assert after.files - {x.target.path} == before.files - {x.target.path};
  }

  lemma NoEvents(events: seq<ToggleEvent>, x: Item, on: bool, snapshot: nat)
    ensures events + EventsFor([x][..0], on, x.target, snapshot) == events
  {
  }

  lemma OnlyItem(sv: Services, before: State, x: Item, on: bool)
    requires x.id in before.rows
    ensures ForTarget([x], x.target) == [x] && TargetsOf([x]) == {x.target}
    ensures SwitchRows(before.rows, [x], on) == before.rows[x.id := Switched(before.rows[x.id], on)]
    ensures Patched(sv, before.files, x.target, [x], on) ==
            sv.patch(TextOf(sv, before.files, x.target), x.meta, on)
  {
    var items := [x];
    assert items[..0] == [] && items[0] == x;
    assert ForTarget([], x.target) == [];
    assert items[0].target in TargetsOf(items);
    assert forall id :: HasItem(items, id) <==> id == x.id;
    assert PatchAll(sv, TextOf(sv, before.files, x.target), [], on) == Some(TextOf(sv, before.files, x.target));
  }

  /** One skill whose event cannot be inserted: it is switched, in file and row, and nothing tells of it. */
  lemma RowWithoutEvent() returns (sv: Services, before: State, after: State, x: Item, fate: Target -> Fate)
    ensures fate(x.target) == EventFails(0) && StoppedAt(sv, before, before, after, [x], [], x.target, true, fate)
    ensures IsSwitched(before, after, x.id) && x.target.path in after.files && after.files[x.target.path] == "on"
    ensures after.events == [] && !EventForEverySwitch(before, after)
  {
    sv := Services((_, text) => text, (_, _, _) => Some("on"), text => text);
    var meta := Meta("skill", "codex", "agent-global", None, "/skill", false, "disabled");
    x := Item("1", meta, Target("codex", "agent-global", "/config.toml"));
    fate := _ => EventFails(0);
    before := State(map["1" := meta], map["/config.toml" := "off"], [], []);
    after := OneItemIsCut(sv, before, x, true, "on", fate);
    assert IsSwitched(before, after, "1") && EventCount(after.events, "1") == EventCount(before.events, "1");
  }

  lemma NewEventsAreOfItems(
    items: seq<Item>, events: seq<ToggleEvent>, part: seq<Item>, on: bool, t: Target, snapshot: nat)
    requires forall x :: x in part ==> x in items
    ensures var all := events + EventsFor(part, on, t, snapshot);
            forall k :: |events| <= k < |all| ==> HasItem(items, all[k].id)
  {
    forall k | 0 <= k < |part| ensures HasItem(items, part[k].id) {
      assert part[k] in part;
    }
  }

  lemma StoppedFiles(
    sv: Services, before: State, mid: State, after: State, items: seq<Item>, done: seq<Target>, t: Target, on: bool,
    fate: Target -> Fate, path: string)
    requires StoppedAt(sv, before, mid, after, items, done, t, on, fate)
    requires forall u :: u in TargetsOf(items) ==> u.path != path
    ensures path in after.files <==> path in before.files
    ensures path in before.files ==> after.files[path] == before.files[path]
  {
    LastIsRecorded(sv, before, mid, after, items, done, t, on, fate);
    assert t in done + [t] && forall u :: u in done ==> u in done + [t];
    OtherFilesStay(sv, before, mid, items, done, on, path);
    SameElsewhere(mid.files, after.files, t.path, path);
  }

  lemma PartIsOfItems(items: seq<Item>, part: seq<Item>)
    requires forall x :: x in part ==> x in items
    ensures forall id :: HasItem(part, id) ==> HasItem(items, id)
  {
    forall id | HasItem(part, id) ensures HasItem(items, id) {
      var k :| 0 <= k < |part| && part[k].id == id;
      assert part[k] in part;
    }
  }

  lemma SameElsewhere(a: Files, b: Files, path: string, other: string)
    requires a - {path} == b - {path} && other != path
    ensures (other in a <==> other in b) && (other in a ==> a[other] == b[other])
  {
    assert other in a <==> other in a - {path};
    assert other in b <==> other in b - {path};
    if other in a {
      assert (a - {path})[other] == (b - {path})[other];
    }
  }

  // ----- proofs -----------------------------------------------------------------------------

  lemma {:induction false} PatchFails(sv: Services, text: string, items: seq<Item>, on: bool, n: nat)
    requires n <= |items| && PatchAll(sv, text, items[..n], on) == None
    ensures PatchAll(sv, text, items, on) == None
    decreases |items|
  {
    if n < |items| {
      assert items[..|items| - 1][..n] == items[..n];
      PatchFails(sv, text, items[..|items| - 1], on, n);
    } else {
      assert items[..n] == items;
    }
  }

  lemma NothingSwitched(rows: Rows, items: seq<Item>, on: bool)
    ensures SwitchRows(rows, items[..0], on) == rows
  {
  }

  lemma PrefixItems(items: seq<Item>, i: nat, id: string)
    requires i < |items|
    ensures HasItem(items[..i + 1], id) <==> HasItem(items[..i], id) || id == items[i].id
  {
    if HasItem(items[..i], id) {
      var k :| 0 <= k < i && items[..i][k].id == id;
      assert items[..i + 1][k].id == id;
    }
    assert items[..i + 1][i] == items[i];
  }

  lemma NextSwitched(before: Rows, items: seq<Item>, i: nat, on: bool)
    requires i < |items| && DistinctItems(items) && items[i].id in before
    ensures SwitchRows(before, items[..i + 1], on) ==
            SwitchRows(before, items[..i], on)[
              items[i].id := Switched(SwitchRows(before, items[..i], on)[items[i].id], on)]
  {
    assert !HasItem(items[..i], items[i].id);
    forall id ensures HasItem(items[..i + 1], id) <==> HasItem(items[..i], id) || id == items[i].id {
      PrefixItems(items, i, id);
    }
  }

  lemma NextEvent(events: seq<ToggleEvent>, items: seq<Item>, i: nat, on: bool, t: Target, snapshot: nat)
    requires i < |items|
    ensures events + EventsFor(items[..i + 1], on, t, snapshot) ==
            events + EventsFor(items[..i], on, t, snapshot) +
              [ToggleEvent(items[i].id, on, items[i].meta.enabled, t, snapshot)]
  {
  }

  lemma TargetsAreGroups(items: seq<Item>, groups: map<Target, seq<Item>>)
    requires IsGrouping(items, groups)
    ensures groups.Keys == TargetsOf(items)
  {
    forall t | t in groups ensures t in TargetsOf(items) {
      if t !in TargetsOf(items) {
        NoneForTarget(items, t);
      }
    }
    forall t | t in TargetsOf(items) ensures t in groups {
      var k :| 0 <= k < |items| && items[k].target == t;
      assert items[k] in items;
    }
  }

  lemma {:induction false} CountEvents(
    events: seq<ToggleEvent>, items: seq<Item>, on: bool, t: Target, snapshot: nat, id: string)
    requires DistinctItems(items)
    ensures EventCount(events + EventsFor(items, on, t, snapshot), id) ==
            EventCount(events, id) + if HasItem(items, id) then 1 else 0
  {
    if items == [] {
      assert events + EventsFor(items, on, t, snapshot) == events;
    } else {
      var fewer, last := items[..|items| - 1], items[|items| - 1];
      CountEvents(events, fewer, on, t, snapshot, id);
      NextEvent(events, items, |items| - 1, on, t, snapshot);
      assert items[..|items|] == items;
      var all, most := events + EventsFor(items, on, t, snapshot), events + EventsFor(fewer, on, t, snapshot);
      assert all[..|all| - 1] == most;
      PrefixItems(items, |items| - 1, id);
      assert !(HasItem(fewer, id) && last.id == id);
    }
  }

  function CountIn(items: seq<Item>, done: set<Target>): nat {
    if items == [] then 0 else CountIn(items[..|items| - 1], done) + if items[|items| - 1].target in done then 1 else 0
  }

  lemma {:induction false} NothingCounted(items: seq<Item>)
    ensures CountIn(items, {}) == 0
  {
    if items != [] {
      NothingCounted(items[..|items| - 1]);
    }
  }

  lemma {:induction false} CountNext(items: seq<Item>, done: set<Target>, t: Target)
    requires t !in done
    ensures CountIn(items, done + {t}) == CountIn(items, done) + |ForTarget(items, t)|
  {
    if items != [] {
      CountNext(items[..|items| - 1], done, t);
    }
  }

  lemma {:induction false} CountAll(items: seq<Item>, done: set<Target>)
    requires TargetsOf(items) <= done
    ensures CountIn(items, done) == |items|
  {
    if items != [] {
      var fewer := items[..|items| - 1];
      assert items[|items| - 1].target in TargetsOf(items);
      forall t | t in TargetsOf(fewer) ensures t in TargetsOf(items) {
        var k :| 0 <= k < |fewer| && fewer[k].target == t;
        assert items[k].target == t;
      }
      CountAll(fewer, done);
    }
  }

  /** After a complete batch a repeated preview of the same request has nothing to write. */
  lemma SwitchedPreviewIsEmpty(before: Rows, rows: Rows, targetOf: TargetOf, ids: seq<string>, on: bool)
    requires rows == SwitchRows(before, PreviewOf(before, targetOf, ids, on).affected, on)
    ensures PreviewOf(rows, targetOf, ids, on).affected == [] && |PreviewOf(rows, targetOf, ids, on).skipped| == |ids|
  {
    forall id | id in ids && id in rows ensures rows[id].enabled == on || targetOf(rows[id]).None? {
      NotWritableAnyMore(before, rows, targetOf, ids, on, id);
    }
    NoneAffected(rows, targetOf, ids, on, |ids|);
    PreviewPartitions(rows, targetOf, ids, on, |ids|);
  }

  lemma NotWritableAnyMore(before: Rows, rows: Rows, targetOf: TargetOf, ids: seq<string>, on: bool, id: string)
    requires id in ids && id in rows
    requires rows == SwitchRows(before, PreviewOf(before, targetOf, ids, on).affected, on)
    ensures rows[id].enabled == on || targetOf(rows[id]).None?
  {
    var items := PreviewOf(before, targetOf, ids, on).affected;
    PreviewPartitions(before, targetOf, ids, on, |ids|);
    assert ids[..|ids|] == ids;
    if before[id].enabled != on && targetOf(before[id]).Some? {
      var x := Item(id, before[id], targetOf(before[id]).value);
      assert Writable(before, targetOf, on, x) && x in items;
      assert HasItem(items, id);
    }
  }

  lemma {:induction false} NoneAffected(rows: Rows, targetOf: TargetOf, ids: seq<string>, on: bool, n: nat)
    requires n <= |ids| && forall id :: id in ids && id in rows ==> rows[id].enabled == on || targetOf(rows[id]).None?
    ensures AffectedIn(rows, targetOf, ids, on, n) == []
  {
    if n > 0 {
      NoneAffected(rows, targetOf, ids, on, n - 1);
    }
  }
}
