/**
  The config write protocol on one config file: settings saves and snapshot rollbacks
  (crates/commands/src/lib.rs 2069-2350) and skill toggles (2900-2983).

  Any number of operations run at the same time, each one a sequence of atomic steps: an
  optimistic check, taking the exclusive lock, the same check again under the lock, recording a
  snapshot, renaming the new file into place, reading it back, releasing the lock. Every step may
  fail. An editor that knows nothing of the lock changes the file at any moment.
 */
module ConfigProtocol {
  import opened Common
  import opened ConfigRevision
  import Redaction

  /** The functions the protocol relies on but does not define. */
  datatype Services = Services(
    hash: string -> string,
    isJson: string -> bool,
    redact: string -> string,
    isRedacted: string -> bool,
    normalize: string -> string,
    patch: (string, string) -> Option<string>,
    target: string,
    projectRoot: Option<string>)

  datatype Operation =
    | Save(content: string, expected: string)
    | Toggle(edit: string)
    | Rollback(snapshotId: string, token: string)

  datatype Outcome =
    | Succeeded | InvalidJson | Conflict | Stale | RefusedRedacted
    | PatchFailed | WriteFailed | VerificationFailed | IoFailed

  datatype Phase =
    | Idle
    | Preflighted
    | Locked
    | Authorised(current: ConfigFile)
    | Ready(current: ConfigFile, replacement: string, snapshot: Option<string>)
    | Written(current: ConfigFile, replacement: string)
    | Mismatched(current: ConfigFile)
    | Done(outcome: Outcome)

  /**
    What an operation or the editor did to the file or to the snapshots. A replacement was made from `basis`, the state
    read under the lock, and found `before`.
   */
  datatype Event =
    | Snapped(process: nat, recorded: Snapshot)
    | Wrote(process: nat, basis: ConfigFile, before: ConfigFile, after: ConfigFile, snapshot: Option<string>)
    | PutBack(process: nat, before: ConfigFile, after: ConfigFile)
    | EditedOutside(before: ConfigFile, after: ConfigFile)

  datatype State = State(
    file: ConfigFile,
    snapshots: map<string, Snapshot>,
    lock: Option<nat>,
    phases: map<nat, Phase>,
    log: seq<Event>)

  /** How a step turns out: as intended, failing, or failing after it took effect. */
  datatype Luck = Fine(freshId: string) | Fails | FailsLate

  datatype Action = Advance(process: nat, luck: Luck) | Edit(file: ConfigFile)

  type Operations = map<nat, Operation>

  // ----- steps ------------------------------------------------------------------------------

  function To(s: State, p: nat, phase: Phase): State {
    s.(phases := s.phases[p := phase])
  }

  /** Ends an operation and releases its lock. */
  function Finish(s: State, p: nat, outcome: Outcome): State {
    s.(phases := s.phases[p := Done(outcome)], lock := None)
  }

  function Logged(s: State, e: Event): State {
    s.(log := s.log + [e])
  }

  /** The rollback check: the snapshot still exists and the token is the one of this very state. */
  predicate TokenAccepted(sv: Services, s: State, id: string, token: string) {
    id in s.snapshots && EnsureRollbackToken(sv.hash, token, s.snapshots[id], Revision(sv.hash, s.file)).Ok?
  }

  function StepIdle(sv: Services, op: Operation, s: State, p: nat, luck: Luck): State {
    match op
    case Save(content, expected) =>
      if !sv.isJson(content) then To(s, p, Done(InvalidJson))
      else if !luck.Fine? then To(s, p, Done(IoFailed))
      else if EnsureExpectedRevision(sv.hash, expected, s.file).Err? then To(s, p, Done(Conflict))
      else To(s, p, Preflighted)
    case Toggle(_) =>
      if luck.Fine? then To(s, p, Preflighted) else To(s, p, Done(IoFailed))
    case Rollback(id, token) =>
      if luck.Fine? && TokenAccepted(sv, s, id, token) then To(s, p, Preflighted) else To(s, p, Done(Stale))
  }

  function StepPreflighted(s: State, p: nat, luck: Luck): State {
    if !luck.Fine? then To(s, p, Done(IoFailed))
    else if s.lock == None then To(s, p, Locked).(lock := Some(p))
    else s
  }

  function StepLocked(sv: Services, op: Operation, s: State, p: nat, luck: Luck): State {
    match op
    case Save(_, expected) =>
      if !luck.Fine? then Finish(s, p, IoFailed)
      else if EnsureExpectedRevision(sv.hash, expected, s.file).Err? then Finish(s, p, Conflict)
      else To(s, p, Authorised(s.file))
    case Toggle(_) =>
      if luck.Fine? then To(s, p, Authorised(s.file)) else Finish(s, p, IoFailed)
    case Rollback(id, token) =>
      if !luck.Fine? || !TokenAccepted(sv, s, id, token) then Finish(s, p, Stale)
      else if sv.isRedacted(s.snapshots[id].content) then Finish(s, p, RefusedRedacted)
      else To(s, p, Ready(s.file, s.snapshots[id].content, None))
  }

  /** The text a snapshot of `current` stands for: a toggle snapshots the text it will patch. */
  function SnapshotBasis(sv: Services, op: Operation, current: ConfigFile): string {
    if op.Toggle? then sv.normalize(current.Content()) else current.Content()
  }

  function StepAuthorised(sv: Services, op: Operation, s: State, p: nat, current: ConfigFile, luck: Luck): State {
    if !luck.Fine? || luck.freshId in s.snapshots || NUL in luck.freshId then Finish(s, p, IoFailed)
    else
      var basis := SnapshotBasis(sv, op, current);
      var snapshot := Snapshot(luck.freshId, sv.target, sv.projectRoot, sv.redact(basis));
      var t := Logged(s.(snapshots := s.snapshots[luck.freshId := snapshot]), Snapped(p, snapshot));
      match op
      case Save(content, _) => To(t, p, Ready(current, content, Some(luck.freshId)))
      case Toggle(edit) =>
        var patched := sv.patch(edit, basis);
        if patched.Some? then To(t, p, Ready(current, patched.value, Some(luck.freshId))) else Finish(t, p, PatchFailed)
      case Rollback(_, _) => s
  }

  function StepReady(
    s: State, p: nat, current: ConfigFile, replacement: string, snapshot: Option<string>, luck: Luck): State
  {
    if luck.Fails? then Finish(s, p, WriteFailed)
    else
      var t := Logged(s.(file := Present(replacement)), Wrote(p, current, s.file, Present(replacement), snapshot));
      if luck.FailsLate? then Finish(t, p, WriteFailed) else To(t, p, Written(current, replacement))
  }

  /** A toggle's read-back fails on a missing file, the others read it as empty. */
  function StepWritten(op: Operation, s: State, p: nat, current: ConfigFile, replacement: string, luck: Luck): State {
    if !luck.Fine? || (op.Toggle? && s.file.Missing?) then Finish(s, p, IoFailed)
    else if s.file.Content() == replacement then Finish(s, p, Succeeded)
    else To(s, p, Mismatched(current))
  }

  /** Best effort: a failing restore is ignored. */
  function StepMismatched(sv: Services, op: Operation, s: State, p: nat, current: ConfigFile, luck: Luck): State {
    if luck.Fails? then Finish(s, p, VerificationFailed)
    else
      var original := Present(SnapshotBasis(sv, op, current));
      Finish(Logged(s.(file := original), PutBack(p, s.file, original)), p, VerificationFailed)
  }

  /** Steps that cannot be taken now leave the state alone. */
  function Next(sv: Services, ops: Operations, s: State, a: Action): State {
    match a
    case Edit(file) => Logged(s.(file := file), EditedOutside(s.file, file))
    case Advance(p, luck) =>
      if p !in ops || p !in s.phases then s
      else
        match s.phases[p]
        case Idle => StepIdle(sv, ops[p], s, p, luck)
        case Preflighted => StepPreflighted(s, p, luck)
        case Locked => StepLocked(sv, ops[p], s, p, luck)
        case Authorised(current) => StepAuthorised(sv, ops[p], s, p, current, luck)
        case Ready(current, replacement, snapshot) => StepReady(s, p, current, replacement, snapshot, luck)
        case Written(current, replacement) => StepWritten(ops[p], s, p, current, replacement, luck)
        case Mismatched(current) => StepMismatched(sv, ops[p], s, p, current, luck)
        case Done(_) => s
  }

  function Run(sv: Services, ops: Operations, s: State, actions: seq<Action>): State
    decreases |actions|
  {
    if actions == [] then s
    else Next(sv, ops, Run(sv, ops, s, actions[..|actions| - 1]), actions[|actions| - 1])
  }

  ghost predicate Initial(sv: Services, ops: Operations, s: State) {
    && s.lock == None && s.log == [] && s.phases == (map p | p in ops :: Idle)
    && (forall id :: id in s.snapshots ==> SnapshotOfThisFile(sv, s.snapshots[id], id))
  }

  // ----- the invariant ----------------------------------------------------------------------

  predicate Holding(phase: Phase) {
    phase.Locked? || phase.Authorised? || phase.Ready? || phase.Written? || phase.Mismatched?
  }

  ghost predicate SnapshotOfThisFile(sv: Services, snapshot: Snapshot, id: string) {
    snapshot.id == id && NUL !in id && snapshot.target == sv.target && snapshot.projectRoot == sv.projectRoot
  }

  /** Operation `op` may turn the file state `before` into `replacement`, having recorded `snapshot`. */
  ghost predicate Justified(
    sv: Services, op: Operation, snapshots: map<string, Snapshot>,
    before: ConfigFile, replacement: string, snapshot: Option<string>)
  {
    match op
    case Save(content, expected) =>
      && expected == Revision(sv.hash, before) && replacement == content
      && SnapshotRecorded(sv, op, snapshots, before, snapshot)
    case Toggle(edit) =>
      && sv.patch(edit, sv.normalize(before.Content())) == Some(replacement)
      && SnapshotRecorded(sv, op, snapshots, before, snapshot)
    case Rollback(id, token) =>
      && id in snapshots && replacement == snapshots[id].content && !sv.isRedacted(replacement)
      && token == RollbackToken(sv.hash, snapshots[id], Revision(sv.hash, before))
      && snapshot == None
  }

  ghost predicate SnapshotRecorded(
    sv: Services, op: Operation, snapshots: map<string, Snapshot>, before: ConfigFile, snapshot: Option<string>)
  {
    && snapshot.Some? && snapshot.value in snapshots
    && snapshots[snapshot.value].content == sv.redact(SnapshotBasis(sv, op, before))
  }

  ghost predicate By(e: Event, p: nat) {
    !e.EditedOutside? && e.process == p
  }

  ghost predicate Untouched(s: State, p: nat) {
    forall e :: e in s.log ==> !By(e, p)
  }

  ghost predicate NotWritten(s: State, p: nat) {
    forall e :: e in s.log && e.Wrote? ==> e.process != p
  }

  /** Event `i` is a replacement by `p`, and since then only the editor has touched the file. */
  ghost predicate WroteLast(log: seq<Event>, p: nat, i: int) {
    0 <= i < |log| && log[i].Wrote? && log[i].process == p && forall k :: i < k < |log| ==> log[k].EditedOutside?
  }

  /** A put-back restores what the last replacement of its own process was made from; the editor came in between. */
  ghost predicate AnswersWrite(sv: Services, ops: Operations, earlier: seq<Event>, e: Event)
    requires e.PutBack?
  {
    && e.process in ops
    && exists i :: WroteLast(earlier, e.process, i) && i < |earlier| - 1 &&
         e.after == Present(SnapshotBasis(sv, ops[e.process], earlier[i].basis))
  }

  /** Each replacement was read for, and each put-back answers a replacement. */
  ghost predicate Ordered(sv: Services, ops: Operations, first: ConfigFile, log: seq<Event>) {
    log == [] ||
    (var earlier, e := log[..|log| - 1], log[|log| - 1];
     Ordered(sv, ops, first, earlier) && InOrder(sv, ops, first, earlier, e))
  }

  ghost predicate InOrder(sv: Services, ops: Operations, first: ConfigFile, earlier: seq<Event>, e: Event) {
    && (e.Wrote? ==> exists r :: ReadAt(first, earlier, e.process, e.basis, r))
    && (e.PutBack? ==> AnswersWrite(sv, ops, earlier, e))
  }

  /** The snapshots after the logged events. */
  function SnapshotsAfter(first: map<string, Snapshot>, log: seq<Event>): map<string, Snapshot>
    decreases |log|
  {
    if log == [] then first
    else
      var before, e := SnapshotsAfter(first, log[..|log| - 1]), log[|log| - 1];
      if e.Snapped? then before[e.recorded.id := e.recorded] else before
  }

  /** The file state after the logged changes. */
  function FileAfter(first: ConfigFile, log: seq<Event>): ConfigFile
    decreases |log|
  {
    if log == [] then first
    else if log[|log| - 1].Snapped? then FileAfter(first, log[..|log| - 1])
    else log[|log| - 1].after
  }

  /** After `r` events `p` has read `current`, and since then only the editor has touched the file. */
  ghost predicate ReadAt(first: ConfigFile, log: seq<Event>, p: nat, current: ConfigFile, r: int) {
    && 0 <= r <= |log| && FileAfter(first, log[..r]) == current
    && forall k :: r <= k < |log| ==> log[k].EditedOutside? || (log[k].Snapped? && log[k].process == p)
  }

  ghost predicate PhaseSound(sv: Services, op: Operation, first: ConfigFile, s: State, p: nat, phase: Phase) {
    match phase
    case Idle => Untouched(s, p)
    case Preflighted => Untouched(s, p)
    case Locked => Untouched(s, p)
    case Authorised(current) =>
      && Untouched(s, p) && !op.Rollback? && (exists r :: ReadAt(first, s.log, p, current, r))
      && (op.Save? ==> op.expected == Revision(sv.hash, current))
    case Ready(current, replacement, snapshot) =>
      && NotWritten(s, p) && (exists r :: ReadAt(first, s.log, p, current, r))
      && Justified(sv, op, s.snapshots, current, replacement, snapshot)
    case Written(current, replacement) =>
      exists i :: WroteLast(s.log, p, i) && s.log[i].basis == current && s.log[i].after == Present(replacement)
    case Mismatched(current) =>
      exists i :: WroteLast(s.log, p, i) && s.log[i].basis == current && i < |s.log| - 1
    case Done(outcome) =>
      outcome.InvalidJson? || outcome.Conflict? || outcome.Stale? || outcome.RefusedRedacted? ==> Untouched(s, p)
  }

  ghost predicate EventSound(sv: Services, ops: Operations, snapshots: map<string, Snapshot>, e: Event) {
    && (!e.EditedOutside? ==> e.process in ops)
    && (e.Wrote? ==>
          && e.after.Present?
          && Justified(sv, ops[e.process], snapshots, e.basis, e.after.text, e.snapshot))
  }

  /** The logged changes of the file lead from `first` to `last` without a gap. */
  ghost predicate Chain(first: ConfigFile, log: seq<Event>, last: ConfigFile)
    decreases |log|
  {
    if log == [] then first == last
    else
      var earlier, e := log[..|log| - 1], log[|log| - 1];
      if e.Snapped? then Chain(first, earlier, last)
      else e.after == last && Chain(first, earlier, e.before)
  }

  ghost predicate Invariant(sv: Services, ops: Operations, first: State, s: State) {
    && s.phases.Keys == ops.Keys
    && (forall p :: p in ops ==> (Holding(s.phases[p]) <==> s.lock == Some(p)))
    && (s.lock.Some? ==> s.lock.value in ops)
    && (forall p :: p in ops ==> PhaseSound(sv, ops[p], first.file, s, p, s.phases[p]))
    && (forall e :: e in s.log ==> EventSound(sv, ops, s.snapshots, e))
    && (forall id :: id in s.snapshots ==> SnapshotOfThisFile(sv, s.snapshots[id], id))
    && Chain(first.file, s.log, s.file)
    && s.snapshots == SnapshotsAfter(first.snapshots, s.log)
    && (forall id :: id in first.snapshots ==> id in s.snapshots && s.snapshots[id] == first.snapshots[id])
    && Ordered(sv, ops, first.file, s.log)
  }

  lemma ChainStep(first: ConfigFile, log: seq<Event>, file: ConfigFile, e: Event)
    requires Chain(first, log, file)
    requires e.Snapped? || e.before == file
    ensures Chain(first, log + [e], if e.Snapped? then file else e.after)
  {
    assert (log + [e])[..|log|] == log;
  }

  /** `t` follows `s` by one step of process `p`, which appends at most one event of its own. */
  ghost predicate StepOf(ops: Operations, s: State, t: State, p: nat, news: seq<Event>) {
    && p in ops && p in t.phases && t.phases == s.phases[p := t.phases[p]]
    && (forall id :: id in s.snapshots ==> id in t.snapshots && t.snapshots[id] == s.snapshots[id])
    && t.log == s.log + news && |news| <= 1 && (news != [] ==> s.lock == Some(p))
    && t.snapshots == SnapshotsAfter(s.snapshots, news)
    && (forall e :: e in news ==> By(e, p))
    && (t.file != s.file ==> s.lock == Some(p))
    && (if Holding(t.phases[p]) then t.lock == Some(p) && (s.lock == None || s.lock == Some(p))
        else if s.lock == Some(p) then t.lock == None else t.lock == s.lock)
  }

  lemma JustifiedKept(sv: Services, op: Operation, snapshots: map<string, Snapshot>, more: map<string, Snapshot>,
                      before: ConfigFile, replacement: string, snapshot: Option<string>)
    requires Justified(sv, op, snapshots, before, replacement, snapshot)
    requires forall id :: id in snapshots ==> id in more && more[id] == snapshots[id]
    ensures Justified(sv, op, more, before, replacement, snapshot)
  {
  }

  /** A step of one process does not disturb what is known about another. */
  lemma OtherPhaseSound(
    sv: Services, ops: Operations, first: State, s: State, t: State, p: nat, news: seq<Event>, q: nat)
    requires Invariant(sv, ops, first, s) && StepOf(ops, s, t, p, news) && q in ops && q != p
    ensures PhaseSound(sv, ops[q], first.file, t, q, t.phases[q])
  {
    assert PhaseSound(sv, ops[q], first.file, s, q, s.phases[q]);
    assert Untouched(s, q) ==> Untouched(t, q);
    assert NotWritten(s, q) ==> NotWritten(t, q);
    if Holding(s.phases[q]) {
      assert t.file == s.file && t.log == s.log;
    }
    if s.phases[q].Ready? {
      JustifiedKept(
        sv, ops[q], s.snapshots, t.snapshots, s.phases[q].current, s.phases[q].replacement, s.phases[q].snapshot);
    }
  }

  lemma LogStaysSound(
    sv: Services, ops: Operations, log: seq<Event>, snapshots: map<string, Snapshot>, more: map<string, Snapshot>)
    requires forall e :: e in log ==> EventSound(sv, ops, snapshots, e)
    requires forall id :: id in snapshots ==> id in more && more[id] == snapshots[id]
    ensures forall e :: e in log ==> EventSound(sv, ops, more, e)
  {
    forall e | e in log ensures EventSound(sv, ops, more, e) {
      assert EventSound(sv, ops, snapshots, e);
      if e.Wrote? {
        JustifiedKept(sv, ops[e.process], snapshots, more, e.basis, e.after.text, e.snapshot);
      }
    }
  }

  lemma ChainGoesOn(first: ConfigFile, s: State, t: State, news: seq<Event>)
    requires Chain(first, s.log, s.file) && t.log == s.log + news && |news| <= 1
    requires if news == [] || news[0].Snapped? then t.file == s.file
             else news[0].before == s.file && news[0].after == t.file
    ensures Chain(first, t.log, t.file)
  {
    if news == [] {
      assert t.log == s.log;
    } else {
      ChainStep(first, s.log, s.file, news[0]);
      assert t.log == s.log + [news[0]];
    }
  }

  lemma SnapshotsGoOn(first: map<string, Snapshot>, log: seq<Event>, news: seq<Event>)
    requires |news| <= 1
    ensures SnapshotsAfter(first, log + news) == SnapshotsAfter(SnapshotsAfter(first, log), news)
  {
    if news == [] {
      assert log + news == log;
    } else {
      assert (log + news)[..|log|] == log && news[..0] == [];
    }
  }

  lemma OneEvent(first: map<string, Snapshot>, e: Event)
    ensures SnapshotsAfter(first, [e]) == if e.Snapped? then first[e.recorded.id := e.recorded] else first
  {
    assert [e][..0] == [];
  }

  lemma {:induction false} OrderGoesOn(sv: Services, ops: Operations, first: ConfigFile, log: seq<Event>,
  news: seq<Event>)
    requires Ordered(sv, ops, first, log) && |news| <= 1
    requires news != [] ==> InOrder(sv, ops, first, log, news[0])
    ensures Ordered(sv, ops, first, log + news)
  {
    if news == [] {
      assert log + news == log;
    } else {
      assert (log + news)[..|log|] == log;
    }
  }

  /** A read stays good while the editor, or a snapshot of the reader, comes after it. */
  lemma StillRead(first: ConfigFile, log: seq<Event>, p: nat, current: ConfigFile, r: int, e: Event)
    requires ReadAt(first, log, p, current, r)
    requires e.EditedOutside? || (e.Snapped? && e.process == p)
    ensures ReadAt(first, log + [e], p, current, r)
  {
    assert (log + [e])[..r] == log[..r];
  }

  lemma JustRead(first: ConfigFile, s: State, p: nat)
    requires Chain(first, s.log, s.file)
    ensures ReadAt(first, s.log, p, s.file, |s.log|)
  {
    ChainAt(first, s.log, s.file, |s.log|);
    assert s.log[..|s.log|] == s.log;
  }

  lemma StepKeepsInvariant(
    sv: Services, ops: Operations, first: State, s: State, t: State, p: nat, news: seq<Event>)
    requires Invariant(sv, ops, first, s) && StepOf(ops, s, t, p, news)
    requires PhaseSound(sv, ops[p], first.file, t, p, t.phases[p])
    requires forall e :: e in news ==> EventSound(sv, ops, t.snapshots, e)
    requires forall id :: id in t.snapshots && id !in s.snapshots ==> SnapshotOfThisFile(sv, t.snapshots[id], id)
    requires if news == [] || news[0].Snapped? then t.file == s.file
             else news[0].before == s.file && news[0].after == t.file
    requires news != [] ==> InOrder(sv, ops, first.file, s.log, news[0])
    ensures Invariant(sv, ops, first, t)
  {
    forall q | q in ops ensures PhaseSound(sv, ops[q], first.file, t, q, t.phases[q]) {
      if q != p {
        OtherPhaseSound(sv, ops, first, s, t, p, news, q);
      }
    }
    LogStaysSound(sv, ops, s.log, s.snapshots, t.snapshots);
    ChainGoesOn(first.file, s, t, news);
    SnapshotsGoOn(first.snapshots, s.log, news);
    OrderGoesOn(sv, ops, first.file, s.log, news);
  }

  /** A step of the lock's holder that appends an event. */
  lemma EventKeepsInvariant(sv: Services, ops: Operations, first: State, s: State, t: State, p: nat, e: Event)
    requires Invariant(sv, ops, first, s) && p in ops && s.lock == Some(p) && By(e, p) && t.log == s.log + [e]
    requires p in t.phases && t.phases == s.phases[p := t.phases[p]]
    requires t.lock == if Holding(t.phases[p]) then Some(p) else None
    requires if e.Snapped? then
               && t.file == s.file && t.snapshots == s.snapshots[e.recorded.id := e.recorded]
               && e.recorded.id !in s.snapshots && SnapshotOfThisFile(sv, e.recorded, e.recorded.id)
             else
               t.file == e.after && e.before == s.file && t.snapshots == s.snapshots
    requires PhaseSound(sv, ops[p], first.file, t, p, t.phases[p])
    requires EventSound(sv, ops, t.snapshots, e) && InOrder(sv, ops, first.file, s.log, e)
    ensures Invariant(sv, ops, first, t)
  {
    OneEvent(s.snapshots, e);
    assert StepOf(ops, s, t, p, [e]);
    StepKeepsInvariant(sv, ops, first, s, t, p, [e]);
  }

  /** A step that only changes the phase of its process and perhaps its hold on the lock. */
  lemma QuietStepKeepsInvariant(
    sv: Services, ops: Operations, first: State, s: State, t: State, p: nat, phase: Phase, lock: Option<nat>)
    requires Invariant(sv, ops, first, s) && p in ops && t == s.(phases := s.phases[p := phase], lock := lock)
    requires PhaseSound(sv, ops[p], first.file, t, p, phase)
    requires if Holding(phase) then lock == Some(p) && (s.lock == None || s.lock == Some(p))
             else if s.lock == Some(p) then lock == None else lock == s.lock
    ensures Invariant(sv, ops, first, t)
  {
    assert t.log == s.log + [];
    StepKeepsInvariant(sv, ops, first, s, t, p, []);
  }

  lemma IdleKeepsInvariant(
    sv: Services, ops: Operations, first: State, s: State, p: nat, luck: Luck)
    requires Invariant(sv, ops, first, s) && p in ops && s.phases[p] == Idle
    ensures Invariant(sv, ops, first, StepIdle(sv, ops[p], s, p, luck))
  {
    var t := StepIdle(sv, ops[p], s, p, luck);
    assert PhaseSound(sv, ops[p], first.file, s, p, s.phases[p]);
    assert s.lock == Some(p) <==> Holding(s.phases[p]);
    if t != s {
      QuietStepKeepsInvariant(sv, ops, first, s, t, p, t.phases[p], t.lock);
    }
  }

  lemma PreflightedKeepsInvariant(
    sv: Services, ops: Operations, first: State, s: State, p: nat, luck: Luck)
    requires Invariant(sv, ops, first, s) && p in ops && s.phases[p] == Preflighted
    ensures Invariant(sv, ops, first, StepPreflighted(s, p, luck))
  {
    var t := StepPreflighted(s, p, luck);
    assert PhaseSound(sv, ops[p], first.file, s, p, s.phases[p]);
    assert s.lock == Some(p) <==> Holding(s.phases[p]);
    if t != s {
      QuietStepKeepsInvariant(sv, ops, first, s, t, p, t.phases[p], t.lock);
    }
  }

  lemma LockedKeepsInvariant(
    sv: Services, ops: Operations, first: State, s: State, p: nat, luck: Luck)
    requires Invariant(sv, ops, first, s) && p in ops && s.phases[p] == Locked
    ensures Invariant(sv, ops, first, StepLocked(sv, ops[p], s, p, luck))
  {
    var t := StepLocked(sv, ops[p], s, p, luck);
    JustRead(first.file, s, p);
    assert PhaseSound(sv, ops[p], first.file, s, p, s.phases[p]);
    assert s.lock == Some(p) <==> Holding(s.phases[p]);
    if t != s {
      QuietStepKeepsInvariant(sv, ops, first, s, t, p, t.phases[p], t.lock);
    }
  }

  lemma ReadyKeepsInvariant(
    sv: Services, ops: Operations, first: State, s: State, p: nat, current: ConfigFile, replacement: string,
    snapshot: Option<string>, luck: Luck)
    requires Invariant(sv, ops, first, s) && p in ops && s.phases[p] == Ready(current, replacement, snapshot)
    ensures Invariant(sv, ops, first, StepReady(s, p, current, replacement, snapshot, luck))
  {
    var t := StepReady(s, p, current, replacement, snapshot, luck);
    assert PhaseSound(sv, ops[p], first.file, s, p, s.phases[p]);
    assert s.lock == Some(p) <==> Holding(s.phases[p]);
    if luck.Fails? {
      QuietStepKeepsInvariant(sv, ops, first, s, t, p, t.phases[p], t.lock);
    } else {
      ReplaceKeepsInvariant(sv, ops, first, s, t, p, current, replacement, snapshot);
    }
  }

  lemma ReplaceKeepsInvariant(
    sv: Services, ops: Operations, first: State, s: State, t: State, p: nat, current: ConfigFile, replacement: string,
    snapshot: Option<string>)
    requires Invariant(sv, ops, first, s) && p in ops && s.phases[p] == Ready(current, replacement, snapshot)
    requires var e := Wrote(p, current, s.file, Present(replacement), snapshot);
             var u := Logged(s.(file := Present(replacement)), e);
             t == Finish(u, p, WriteFailed) || t == To(u, p, Written(current, replacement))
    ensures Invariant(sv, ops, first, t)
  {
    var e := Wrote(p, current, s.file, Present(replacement), snapshot);
    assert PhaseSound(sv, ops[p], first.file, s, p, s.phases[p]);
    assert EventSound(sv, ops, s.snapshots, e);
    assert WroteLast(t.log, p, |s.log|);
    ReplacedPhaseSound(sv, ops[p], first.file, s, t, p);
    EventKeepsInvariant(sv, ops, first, s, t, p, e);
  }

  lemma ReplacedPhaseSound(sv: Services, op: Operation, first: ConfigFile, s: State, t: State, p: nat)
    requires p in t.phases && WroteLast(t.log, p, |s.log|)
    requires || t.phases[p] == Done(WriteFailed)
             || (t.phases[p].Written? && t.log[|s.log|].basis == t.phases[p].current &&
                 t.log[|s.log|].after == Present(t.phases[p].replacement))
    ensures PhaseSound(sv, op, first, t, p, t.phases[p])
  {
  }

  /** A file that differs from what was written was edited since. */
  lemma DifferenceIsAnEdit(first: ConfigFile, log: seq<Event>, file: ConfigFile, p: nat, i: int)
    requires Chain(first, log, file) && WroteLast(log, p, i) && file != log[i].after
    ensures i < |log| - 1
  {
  }

  lemma WrittenKeepsInvariant(
    sv: Services, ops: Operations, first: State, s: State, p: nat, current: ConfigFile, replacement: string, luck: Luck)
    requires Invariant(sv, ops, first, s) && p in ops && s.phases[p] == Written(current, replacement)
    ensures Invariant(sv, ops, first, StepWritten(ops[p], s, p, current, replacement, luck))
  {
    var t := StepWritten(ops[p], s, p, current, replacement, luck);
    assert PhaseSound(sv, ops[p], first.file, s, p, s.phases[p]);
    assert s.lock == Some(p) <==> Holding(s.phases[p]);
    if t.phases[p].Mismatched? {
      var i :| WroteLast(s.log, p, i) && s.log[i].basis == current && s.log[i].after == Present(replacement);
      DifferenceIsAnEdit(first.file, s.log, s.file, p, i);
    }
    if t != s {
      QuietStepKeepsInvariant(sv, ops, first, s, t, p, t.phases[p], t.lock);
    }
  }

  lemma MismatchedKeepsInvariant(
    sv: Services, ops: Operations, first: State, s: State, p: nat, current: ConfigFile, luck: Luck)
    requires Invariant(sv, ops, first, s) && p in ops && s.phases[p] == Mismatched(current)
    ensures Invariant(sv, ops, first, StepMismatched(sv, ops[p], s, p, current, luck))
  {
    var t := StepMismatched(sv, ops[p], s, p, current, luck);
    assert PhaseSound(sv, ops[p], first.file, s, p, s.phases[p]);
    assert s.lock == Some(p) <==> Holding(s.phases[p]);
    if luck.Fails? {
      QuietStepKeepsInvariant(sv, ops, first, s, t, p, t.phases[p], t.lock);
    } else {
      var e := PutBack(p, s.file, t.file);
      assert AnswersWrite(sv, ops, s.log, e);
      EventKeepsInvariant(sv, ops, first, s, t, p, e);
    }
  }

  lemma AuthorisedKeepsInvariant(
    sv: Services, ops: Operations, first: State, s: State, p: nat, current: ConfigFile, luck: Luck)
    requires Invariant(sv, ops, first, s) && p in ops && s.phases[p] == Authorised(current)
    ensures Invariant(sv, ops, first, StepAuthorised(sv, ops[p], s, p, current, luck))
  {
    var t := StepAuthorised(sv, ops[p], s, p, current, luck);
    assert PhaseSound(sv, ops[p], first.file, s, p, s.phases[p]);
    if !luck.Fine? || luck.freshId in s.snapshots || NUL in luck.freshId {
      QuietStepKeepsInvariant(sv, ops, first, s, t, p, t.phases[p], t.lock);
    } else {
      var basis := SnapshotBasis(sv, ops[p], current);
      RecordKeepsInvariant(
        sv, ops, first, s, t, p, current, Snapshot(luck.freshId, sv.target, sv.projectRoot, sv.redact(basis)));
    }
  }

  lemma RecordKeepsInvariant(
    sv: Services, ops: Operations, first: State, s: State, t: State, p: nat, current: ConfigFile, snapshot: Snapshot)
    requires Invariant(sv, ops, first, s) && p in ops && s.phases[p] == Authorised(current)
    requires snapshot.id !in s.snapshots && SnapshotOfThisFile(sv, snapshot, snapshot.id)
    requires snapshot.content == sv.redact(SnapshotBasis(sv, ops[p], current))
    requires var u := Logged(s.(snapshots := s.snapshots[snapshot.id := snapshot]), Snapped(p, snapshot));
             match ops[p]
             case Save(content, _) => t == To(u, p, Ready(current, content, Some(snapshot.id)))
             case Toggle(edit) =>
               (var patched := sv.patch(edit, SnapshotBasis(sv, ops[p], current));
                t == if patched.Some? then To(u, p, Ready(current, patched.value, Some(snapshot.id)))
                  else Finish(u, p, PatchFailed))
             case Rollback(_, _) => false
    ensures Invariant(sv, ops, first, t)
  {
    assert PhaseSound(sv, ops[p], first.file, s, p, s.phases[p]);
    RecordedPhaseSound(sv, ops[p], first.file, s, t, p, current, snapshot);
    EventKeepsInvariant(sv, ops, first, s, t, p, Snapped(p, snapshot));
  }

  lemma RecordedPhaseSound(
    sv: Services, op: Operation, first: ConfigFile, s: State, t: State, p: nat, current: ConfigFile,
    snapshot: Snapshot)
    requires p in t.phases && PhaseSound(sv, op, first, s, p, Authorised(current))
    requires t.log == s.log + [Snapped(p, snapshot)] && t.snapshots == s.snapshots[snapshot.id := snapshot]
    requires snapshot.content == sv.redact(SnapshotBasis(sv, op, current))
    requires match op
             case Save(content, _) => t.phases[p] == Ready(current, content, Some(snapshot.id))
             case Toggle(edit) =>
               (var patched := sv.patch(edit, SnapshotBasis(sv, op, current));
                t.phases[p] == if patched.Some? then Ready(current, patched.value, Some(snapshot.id))
                               else Done(PatchFailed))
             case Rollback(_, _) => false
    ensures PhaseSound(sv, op, first, t, p, t.phases[p])
  {
    var r :| ReadAt(first, s.log, p, current, r);
    StillRead(first, s.log, p, current, r, Snapped(p, snapshot));
    assert forall e :: e in s.log ==> !By(e, p);
  }

  lemma AdvanceKeepsInvariant(sv: Services, ops: Operations, first: State, s: State, p: nat, luck: Luck)
    requires Invariant(sv, ops, first, s) && p in ops
    ensures Invariant(sv, ops, first, Next(sv, ops, s, Advance(p, luck)))
  {
    match s.phases[p]
    case Idle => IdleKeepsInvariant(sv, ops, first, s, p, luck);
    case Preflighted => PreflightedKeepsInvariant(sv, ops, first, s, p, luck);
    case Locked => LockedKeepsInvariant(sv, ops, first, s, p, luck);
    case Authorised(current) => AuthorisedKeepsInvariant(sv, ops, first, s, p, current, luck);
    case Ready(current, replacement, snapshot) =>
      ReadyKeepsInvariant(sv, ops, first, s, p, current, replacement, snapshot, luck);
    case Written(current, replacement) => WrittenKeepsInvariant(sv, ops, first, s, p, current, replacement, luck);
    case Mismatched(current) => MismatchedKeepsInvariant(sv, ops, first, s, p, current, luck);
    case Done(_) =>
  }

  lemma EditKeepsInvariant(sv: Services, ops: Operations, first: State, s: State, file: ConfigFile)
    requires Invariant(sv, ops, first, s)
    ensures Invariant(sv, ops, first, Next(sv, ops, s, Edit(file)))
  {
    var t := Next(sv, ops, s, Edit(file));
    ChainStep(first.file, s.log, s.file, EditedOutside(s.file, file));
    SnapshotsGoOn(first.snapshots, s.log, [EditedOutside(s.file, file)]);
    OneEvent(s.snapshots, EditedOutside(s.file, file));
    OrderGoesOn(sv, ops, first.file, s.log, [EditedOutside(s.file, file)]);
    forall p | p in ops ensures PhaseSound(sv, ops[p], first.file, t, p, t.phases[p]) {
      EditKeepsPhase(sv, ops[p], first.file, s, t, p, file);
    }
  }

  lemma EditKeepsPhase(sv: Services, op: Operation, first: ConfigFile, s: State, t: State, p: nat, file: ConfigFile)
    requires p in s.phases && PhaseSound(sv, op, first, s, p, s.phases[p])
    requires t == Logged(s.(file := file), EditedOutside(s.file, file))
    ensures PhaseSound(sv, op, first, t, p, t.phases[p])
  {
    assert Untouched(s, p) ==> Untouched(t, p);
    assert forall i :: WroteLast(s.log, p, i) ==> WroteLast(t.log, p, i);
    if s.phases[p].Authorised? || s.phases[p].Ready? {
      var r :| ReadAt(first, s.log, p, s.phases[p].current, r);
      StillRead(first, s.log, p, s.phases[p].current, r, EditedOutside(s.file, file));
    }
  }

  /** The invariant holds after every run of every set of operations. */
  lemma {:induction false} RunKeepsInvariant(sv: Services, ops: Operations, s: State, actions: seq<Action>)
    requires Initial(sv, ops, s)
    ensures Invariant(sv, ops, s, Run(sv, ops, s, actions))
  {
    if actions != [] {
      var earlier, a := actions[..|actions| - 1], actions[|actions| - 1];
      RunKeepsInvariant(sv, ops, s, earlier);
      var t := Run(sv, ops, s, earlier);
      match a
      case Edit(file) => EditKeepsInvariant(sv, ops, s, t, file);
      case Advance(p, luck) =>
        if p in ops {
          AdvanceKeepsInvariant(sv, ops, s, t, p, luck);
        }
    }
  }

  // ----- what the invariant means -----------------------------------------------------------

  lemma {:induction false} ChainAt(first: ConfigFile, log: seq<Event>, last: ConfigFile, k: nat)
    requires Chain(first, log, last) && k <= |log|
    ensures k < |log| && !log[k].Snapped? ==> log[k].before == FileAfter(first, log[..k])
    ensures k == |log| ==> last == FileAfter(first, log)
    decreases |log|
  {
    if log != [] {
      var earlier, e := log[..|log| - 1], log[|log| - 1];
      var before := if e.Snapped? then last else e.before;
      if k < |earlier| {
        ChainAt(first, earlier, before, k);
        assert earlier[..k] == log[..k];
      } else {
        ChainAt(first, earlier, before, |earlier|);
        assert log[..|log| - 1] == earlier;
      }
    }
  }

  /**
    In every interleaving each replacement was computed from, or authorised against, a state `basis` of the file that
    it read under the lock: a save expected its revision, a toggle patched its text, a rollback's token names it. After
    that read only outside edits changed the file; without one the replacement overwrites exactly its basis.
   */
  lemma EveryReplacementIsAuthorised(sv: Services, ops: Operations, s: State, actions: seq<Action>, k: nat)
    returns (r: nat)
    requires Initial(sv, ops, s)
    requires k < |Run(sv, ops, s, actions).log| && Run(sv, ops, s, actions).log[k].Wrote?
    ensures var t := Run(sv, ops, s, actions); var e := t.log[k];
            && e.process in ops && e.after.Present?
            && e.before == FileAfter(s.file, t.log[..k])
            && r <= k && e.basis == FileAfter(s.file, t.log[..r])
            && (forall m :: r <= m < k ==>
                  t.log[m].EditedOutside? || (t.log[m].Snapped? && t.log[m].process == e.process))
            && ((forall m :: r <= m < k ==> t.log[m].Snapped?) ==> e.before == e.basis)
            && Justified(sv, ops[e.process], t.snapshots, e.basis, e.after.text, e.snapshot)
  {
    RunKeepsInvariant(sv, ops, s, actions);
    var t := Run(sv, ops, s, actions);
    assert EventSound(sv, ops, t.snapshots, t.log[k]);
    ChainAt(s.file, t.log, t.file, k);
    r := ReadInLog(sv, ops, s.file, t.log, k);
    if forall m :: r <= m < k ==> t.log[m].Snapped? {
      NothingChanged(s.file, t.log, r, k);
    }
  }

  lemma ReadInLog(sv: Services, ops: Operations, first: ConfigFile, log: seq<Event>, k: nat) returns (r: nat)
    requires Ordered(sv, ops, first, log) && k < |log| && log[k].Wrote?
    ensures r <= k && log[k].basis == FileAfter(first, log[..r])
    ensures forall m :: r <= m < k ==> log[m].EditedOutside? || (log[m].Snapped? && log[m].process == log[k].process)
  {
    InOrderAt(sv, ops, first, log, k);
    var earlier := log[..k];
    var n :| ReadAt(first, earlier, log[k].process, log[k].basis, n);
    r := n;
    assert earlier[..r] == log[..r];
    forall m | r <= m < k
      ensures log[m].EditedOutside? || (log[m].Snapped? && log[m].process == log[k].process)
    {
      assert earlier[m] == log[m];
    }
  }

  lemma {:induction false} NothingChanged(first: ConfigFile, log: seq<Event>, i: nat, j: nat)
    requires i <= j <= |log| && forall m :: i <= m < j ==> log[m].Snapped?
    ensures FileAfter(first, log[..j]) == FileAfter(first, log[..i])
    decreases j
  {
    if i < j {
      assert log[..j][..j - 1] == log[..j - 1];
      NothingChanged(first, log, i, j - 1);
    }
  }

  lemma RunFacts(sv: Services, ops: Operations, s: State, actions: seq<Action>)
    requires Initial(sv, ops, s)
    ensures var t := Run(sv, ops, s, actions); Chain(s.file, t.log, t.file) && Ordered(sv, ops, s.file, t.log)
  {
    RunKeepsInvariant(sv, ops, s, actions);
  }

  lemma {:induction false} InOrderAt(sv: Services, ops: Operations, first: ConfigFile, log: seq<Event>, k: nat)
    requires Ordered(sv, ops, first, log) && k < |log|
    ensures InOrder(sv, ops, first, log[..k], log[k])
    decreases |log|
  {
    var earlier := log[..|log| - 1];
    if k < |earlier| {
      InOrderAt(sv, ops, first, earlier, k);
      assert earlier[..k] == log[..k];
    }
  }

  /**
    Every put-back restores the text that the last replacement of its own operation was made from, and between the
    two there are outside edits and nothing else.
   */
  lemma PutBackRestoresOwnWrite(sv: Services, ops: Operations, s: State, actions: seq<Action>, k: nat) returns (i: nat)
    requires Initial(sv, ops, s)
    requires k < |Run(sv, ops, s, actions).log| && Run(sv, ops, s, actions).log[k].PutBack?
    ensures var log := Run(sv, ops, s, actions).log; var e := log[k];
            && i + 1 < k && log[i].Wrote? && log[i].process == e.process && e.process in ops
            && (forall m :: i < m < k ==> log[m].EditedOutside?)
            && e.before == log[k - 1].after
            && e.after == Present(SnapshotBasis(sv, ops[e.process], log[i].basis))
  {
    RunFacts(sv, ops, s, actions);
    i := PutBackInLog(sv, ops, s.file, Run(sv, ops, s, actions).log, Run(sv, ops, s, actions).file, k);
  }

  lemma PutBackInLog(sv: Services, ops: Operations, first: ConfigFile, log: seq<Event>, last: ConfigFile, k: nat)
    returns (i: nat)
    requires Chain(first, log, last) && Ordered(sv, ops, first, log) && k < |log| && log[k].PutBack?
    ensures i + 1 < k && log[i].Wrote? && log[i].process == log[k].process && log[k].process in ops
    ensures forall m :: i < m < k ==> log[m].EditedOutside?
    ensures log[k].before == log[k - 1].after
    ensures log[k].after == Present(SnapshotBasis(sv, ops[log[k].process], log[i].basis))
  {
    InOrderAt(sv, ops, first, log, k);
    var earlier := log[..k];
    var n :| WroteLast(earlier, log[k].process, n) && n < |earlier| - 1 &&
             log[k].after == Present(SnapshotBasis(sv, ops[log[k].process], earlier[n].basis));
    i := n;
    forall m | n < m < k ensures log[m].EditedOutside? {
      assert earlier[m] == log[m];
    }
    ChainAt(first, log, last, k);
    QuietStretch(first, log, k - 1, k);
  }

  /**
    No write of an operation is lost: a change that overwrites one is a replacement made from exactly that write. So
    only outside edits are ever overwritten unseen, and only by a replacement whose operation had read the file before
    them, or by a put-back.
   */
  lemma OnlyOutsideEditsAreLost(sv: Services, ops: Operations, s: State, actions: seq<Action>, j: nat, k: nat)
    requires Initial(sv, ops, s) && j < k < |Run(sv, ops, s, actions).log|
    requires !Run(sv, ops, s, actions).log[j].Snapped?
    requires forall m :: j < m < k ==> Run(sv, ops, s, actions).log[m].Snapped?
    requires Run(sv, ops, s, actions).log[k].Wrote? || Run(sv, ops, s, actions).log[k].PutBack?
    ensures var t := Run(sv, ops, s, actions); var e := t.log[k];
            && e.before == t.log[j].after
            && (!t.log[j].EditedOutside? ==>
                  && e.Wrote? && e.basis == e.before && e.process in ops && e.after.Present?
                  && Justified(sv, ops[e.process], t.snapshots, t.log[j].after, e.after.text, e.snapshot))
  {
    RunFacts(sv, ops, s, actions);
    var t := Run(sv, ops, s, actions);
    ChainAt(s.file, t.log, t.file, k);
    QuietStretch(s.file, t.log, j, k);
    if t.log[k].Wrote? {
      var r := EveryReplacementIsAuthorised(sv, ops, s, actions, k);
      if r > j {
        QuietStretch(s.file, t.log, j, r);
      }
    } else {
      var i := PutBackRestoresOwnWrite(sv, ops, s, actions, k);
      assert t.log[k - 1].EditedOutside?;
    }
  }

  lemma RunNext(sv: Services, ops: Operations, s: State, actions: seq<Action>, a: Action)
    ensures Run(sv, ops, s, actions + [a]) == Next(sv, ops, Run(sv, ops, s, actions), a)
  {
    assert (actions + [a])[..|actions|] == actions;
  }

  lemma SaveAuthorised(sv: Services, ops: Operations, s: State, p: nat, luck: Luck)
    requires p in ops && ops[p].Save? && sv.isJson(ops[p].content) && luck.Fine?
    requires ops[p].expected == Revision(sv.hash, s.file)
    requires p in s.phases && s.phases[p] == Idle && s.lock == None
    ensures
      var a := Advance(p, luck);
      Next(sv, ops, Next(sv, ops, Next(sv, ops, s, a), a), a) == To(s, p, Authorised(s.file)).(lock := Some(p))
  {
    var a := Advance(p, luck);
    var s1 := Next(sv, ops, s, a);
    assert s1 == To(s, p, Preflighted);
    var s2 := Next(sv, ops, s1, a);
    assert s2 == To(s, p, Locked).(lock := Some(p));
  }

  lemma SaveSnaps(sv: Services, ops: Operations, s: State, p: nat, id: string, current: ConfigFile)
    requires p in ops && ops[p].Save? && p in s.phases && s.phases[p] == Authorised(current)
    requires id !in s.snapshots && NUL !in id
    ensures
      var t := Next(sv, ops, s, Advance(p, Fine(id)));
      && t.file == s.file && t.lock == s.lock && p in t.phases
      && t.phases[p] == Ready(current, ops[p].content, Some(id))
      && |t.log| == |s.log| + 1 && t.log[|s.log|].Snapped? && s.log <= t.log
  {
  }

  /** A save up to the moment before its rename. */
  lemma SaveReady(sv: Services, ops: Operations, s: State, p: nat, id: string) returns (actions: seq<Action>)
    requires Initial(sv, ops, s) && p in ops && ops[p].Save? && sv.isJson(ops[p].content)
    requires ops[p].expected == Revision(sv.hash, s.file) && id !in s.snapshots && NUL !in id
    ensures var t := Run(sv, ops, s, actions);
            && t.file == s.file && t.lock == Some(p) && p in t.phases
            && t.phases[p] == Ready(s.file, ops[p].content, Some(id))
            && |t.log| == 1 && t.log[0].Snapped?
  {
    var a := Advance(p, Fine(id));
    var none: seq<Action> := [];
    RunNext(sv, ops, s, none, a);
    RunNext(sv, ops, s, none + [a], a);
    RunNext(sv, ops, s, none + [a] + [a], a);
    RunNext(sv, ops, s, none + [a] + [a] + [a], a);
    actions := none + [a] + [a] + [a] + [a];
    SaveAuthorised(sv, ops, s, p, a.luck);
    SaveSnaps(sv, ops, To(s, p, Authorised(s.file)).(lock := Some(p)), p, id, s.file);
  }

  /** An edit between the read of a save and its rename is overwritten unseen, and the save succeeds. */
  lemma EditBeforeRenameIsLost(
    sv: Services, ops: Operations, s: State, p: nat, id: string, edited: ConfigFile) returns (actions: seq<Action>)
    requires Initial(sv, ops, s) && p in ops && ops[p].Save? && sv.isJson(ops[p].content)
    requires ops[p].expected == Revision(sv.hash, s.file) && id !in s.snapshots && NUL !in id
    ensures var t := Run(sv, ops, s, actions);
            && p in t.phases && t.phases[p] == Done(Succeeded) && t.file == Present(ops[p].content)
            && |t.log| == 3 && t.log[1] == EditedOutside(s.file, edited)
            && t.log[2] == Wrote(p, s.file, edited, t.file, Some(id))
  {
    var a := Advance(p, Fine(id));
    var ready := SaveReady(sv, ops, s, p, id);
    RunNext(sv, ops, s, ready, Edit(edited));
    RunNext(sv, ops, s, ready + [Edit(edited)], a);
    RunNext(sv, ops, s, ready + [Edit(edited)] + [a], a);
    actions := ready + [Edit(edited)] + [a] + [a];
  }

  lemma EditedAfterRename(
    sv: Services, ops: Operations, s: State, p: nat, id: string, current: ConfigFile, edited: ConfigFile)
    requires p in ops && ops[p].Save? && p in s.phases && edited.Content() != ops[p].content
    requires s.phases[p] == Ready(current, ops[p].content, Some(id))
    ensures
      var a := Advance(p, Fine(id));
      var written := Next(sv, ops, s, a);
      var t := Next(sv, ops, Next(sv, ops, Next(sv, ops, written, Edit(edited)), a), a);
      && p in t.phases && t.phases[p] == Done(VerificationFailed) && t.file == Present(current.Content())
      && t.log == s.log + [Wrote(p, current, s.file, Present(ops[p].content), Some(id))] +
                  [EditedOutside(Present(ops[p].content), edited)] + [PutBack(p, edited, t.file)]
  {
    var a := Advance(p, Fine(id));
    var written := Next(sv, ops, s, a);
    assert written.phases[p] == Written(current, ops[p].content);
    var read := Next(sv, ops, Next(sv, ops, written, Edit(edited)), a);
    assert read.phases[p] == Mismatched(current) && read.file == edited;
  }

  /** An edit between the rename of a save and its read-back is overwritten by the put-back, and the save fails. */
  lemma EditBeforePutBackIsLost(
    sv: Services, ops: Operations, s: State, p: nat, id: string, edited: ConfigFile) returns (actions: seq<Action>)
    requires Initial(sv, ops, s) && p in ops && ops[p].Save? && sv.isJson(ops[p].content)
    requires ops[p].expected == Revision(sv.hash, s.file) && id !in s.snapshots && NUL !in id
    requires edited.Content() != ops[p].content
    ensures var t := Run(sv, ops, s, actions);
            && p in t.phases && t.phases[p] == Done(VerificationFailed) && t.file == Present(s.file.Content())
            && |t.log| == 4 && t.log[2] == EditedOutside(Present(ops[p].content), edited)
            && t.log[3] == PutBack(p, edited, t.file)
  {
    var a := Advance(p, Fine(id));
    var ready := SaveReady(sv, ops, s, p, id);
    RunNext(sv, ops, s, ready, a);
    RunNext(sv, ops, s, ready + [a], Edit(edited));
    RunNext(sv, ops, s, ready + [a] + [Edit(edited)], a);
    RunNext(sv, ops, s, ready + [a] + [Edit(edited)] + [a], a);
    actions := ready + [a] + [Edit(edited)] + [a] + [a];
    EditedAfterRename(sv, ops, Run(sv, ops, s, ready), p, id, s.file, edited);
  }

  /** The log is the whole story of the file and of the snapshots, and no recorded snapshot is ever changed. */
  lemma LogExplainsState(sv: Services, ops: Operations, s: State, actions: seq<Action>)
    requires Initial(sv, ops, s)
    ensures var t := Run(sv, ops, s, actions);
            && t.file == FileAfter(s.file, t.log)
            && t.snapshots == SnapshotsAfter(s.snapshots, t.log)
            && forall id :: id in s.snapshots ==> id in t.snapshots && t.snapshots[id] == s.snapshots[id]
  {
    RunKeepsInvariant(sv, ops, s, actions);
    var t := Run(sv, ops, s, actions);
    ChainAt(s.file, t.log, t.file, |t.log|);
  }

  lemma {:induction false} NewSnapshotsAreLogged(first: map<string, Snapshot>, log: seq<Event>, id: string)
    requires id in SnapshotsAfter(first, log) && id !in first
    ensures exists e :: e in log && e.Snapped? && e.recorded == SnapshotsAfter(first, log)[id] && e.recorded.id == id
    decreases |log|
  {
    var earlier, last := log[..|log| - 1], log[|log| - 1];
    if last.Snapped? && last.recorded.id == id {
      assert last in log;
    } else {
      NewSnapshotsAreLogged(first, earlier, id);
    }
  }

  /**
    An operation that is refused as conflicting, stale, redacted or malformed has changed nothing: no change of the
    file is its, every new snapshot was recorded by another operation, and the old ones are as they were.
   */
  lemma RefusedOperationsChangeNothing(sv: Services, ops: Operations, s: State, actions: seq<Action>, p: nat)
    requires Initial(sv, ops, s) && p in ops && p in Run(sv, ops, s, actions).phases
    requires Run(sv, ops, s, actions).phases[p] in
             {Done(Conflict), Done(Stale), Done(RefusedRedacted), Done(InvalidJson)}
    ensures var t := Run(sv, ops, s, actions);
            && t.file == FileAfter(s.file, t.log) && (forall e :: e in t.log ==> !By(e, p))
            && (forall id :: id in s.snapshots ==> id in t.snapshots && t.snapshots[id] == s.snapshots[id])
            && (forall id :: id in t.snapshots && id !in s.snapshots ==>
                  exists e :: e in t.log && e.Snapped? && e.process != p && e.recorded == t.snapshots[id])
  {
    RunKeepsInvariant(sv, ops, s, actions);
    LogExplainsState(sv, ops, s, actions);
    var t := Run(sv, ops, s, actions);
    assert PhaseSound(sv, ops[p], s.file, t, p, t.phases[p]);
    forall id | id in t.snapshots && id !in s.snapshots
      ensures exists e :: e in t.log && e.Snapped? && e.process != p && e.recorded == t.snapshots[id]
    {
      NewSnapshotsAreLogged(s.snapshots, t.log, id);
      var e :| e in t.log && e.Snapped? && e.recorded == t.snapshots[id];
      assert !By(e, p);
    }
  }

  lemma AtMostOneHoldsTheLock(sv: Services, ops: Operations, s: State, actions: seq<Action>, p: nat, q: nat)
    requires Initial(sv, ops, s) && p in ops && q in ops
    requires p in Run(sv, ops, s, actions).phases && q in Run(sv, ops, s, actions).phases
    requires Holding(Run(sv, ops, s, actions).phases[p]) && Holding(Run(sv, ops, s, actions).phases[q])
    ensures p == q
  {
    RunKeepsInvariant(sv, ops, s, actions);
  }

  lemma {:induction false} QuietStretch(first: ConfigFile, log: seq<Event>, i: nat, j: nat)
    requires i < j <= |log| && !log[i].Snapped?
    requires forall k :: i < k < j ==> log[k].Snapped?
    ensures FileAfter(first, log[..j]) == log[i].after
    decreases j
  {
    assert log[..j][..j - 1] == log[..j - 1];
    if j > i + 1 {
      QuietStretch(first, log, i, j - 1);
    }
  }

  /**
    Of two saves that expect the same revision, the second one replaces the file only if, after the
    first one changed it, something else changed it again.
   */
  lemma SecondSaveNeedsAnotherChange(
    sv: Services, ops: Operations, s: State, actions: seq<Action>, i: nat, j: nat)
    requires Initial(sv, ops, s) && CollisionFree(sv.hash)
    requires i < j < |Run(sv, ops, s, actions).log|
    requires Run(sv, ops, s, actions).log[i].Wrote? && Run(sv, ops, s, actions).log[j].Wrote?
    requires forall k :: k in {i, j} ==>
             Run(sv, ops, s, actions).log[k].process in ops && ops[Run(sv, ops, s, actions).log[k].process].Save?
    requires ops[Run(sv, ops, s, actions).log[i].process].expected ==
             ops[Run(sv, ops, s, actions).log[j].process].expected
    requires Run(sv, ops, s, actions).log[i].after != Run(sv, ops, s, actions).log[i].basis
    ensures exists k :: i < k < j && !Run(sv, ops, s, actions).log[k].Snapped?
  {
    var log := Run(sv, ops, s, actions).log;
    var r := EveryReplacementIsAuthorised(sv, ops, s, actions, i);
    if forall k :: i < k < j ==> log[k].Snapped? {
      OnlyOutsideEditsAreLost(sv, ops, s, actions, i, j);
      RevisionIdentifiesState(sv.hash, log[i].basis, log[i].after);
    }
  }

  /** Redaction returns its input, or a text that is recognised as redacted. */
  ghost predicate RedactsVisibly(sv: Services) {
    forall x :: sv.redact(x) == x || sv.isRedacted(sv.redact(x))
  }

  /**
    Whenever a rollback replaces the file from a snapshot that a save or toggle recorded, it puts
    back exactly the text that the snapshot stood for; for a save that is the text it was authorised against.
   */
  lemma RollbackRestoresExactly(sv: Services, ops: Operations, s: State, actions: seq<Action>, i: nat, j: nat)
    requires Initial(sv, ops, s) && RedactsVisibly(sv)
    requires i < |Run(sv, ops, s, actions).log| && j < |Run(sv, ops, s, actions).log|
    requires Run(sv, ops, s, actions).log[i].Wrote? && Run(sv, ops, s, actions).log[j].Wrote?
    requires forall k :: k in {i, j} ==> Run(sv, ops, s, actions).log[k].process in ops
    requires ops[Run(sv, ops, s, actions).log[j].process].Rollback?
    requires Run(sv, ops, s, actions).log[i].snapshot == Some(ops[Run(sv, ops, s, actions).log[j].process].snapshotId)
    ensures var log := Run(sv, ops, s, actions).log; var op := ops[log[i].process];
            && log[j].after == Present(SnapshotBasis(sv, op, log[i].basis))
            && (op.Save? ==> log[j].after == Present(log[i].basis.Content()))
            && (op.Toggle? ==> (log[j].after == Present(log[i].basis.Content())
                                <==> sv.normalize(log[i].basis.Content()) == log[i].basis.Content()))
  {
    var readFirst := EveryReplacementIsAuthorised(sv, ops, s, actions, i);
    var readSecond := EveryReplacementIsAuthorised(sv, ops, s, actions, j);
  }

  // ----- undisturbed operations -------------------------------------------------------------

  function Repeat(sv: Services, ops: Operations, s: State, a: Action, n: nat): State {
    if n == 0 then s else Next(sv, ops, Repeat(sv, ops, s, a, n - 1), a)
  }

  datatype Preview = Preview(currentContent: string, token: string, changed: bool, redacted: bool, supported: bool)

  function PreviewRollback(sv: Services, s: State, id: string): Option<Preview> {
    if id !in s.snapshots then None
    else
      var content := s.snapshots[id].content;
      var redacted := sv.isRedacted(content);
      Some(Preview(
        s.file.Content(), RollbackToken(sv.hash, s.snapshots[id], Revision(sv.hash, s.file)),
        redacted || s.file.Content() != content, redacted, !redacted))
  }

  lemma UndisturbedSave(sv: Services, ops: Operations, s: State, p: nat, id: string)
    requires p in ops && p in s.phases && s.phases[p] == Idle && s.lock == None && ops[p].Save?
    requires sv.isJson(ops[p].content) && id !in s.snapshots && NUL !in id
    requires ops[p].expected == Revision(sv.hash, s.file)
    ensures var t := Repeat(sv, ops, s, Advance(p, Fine(id)), 6);
            && t.file == Present(ops[p].content) && t.lock == None
            && t.phases == s.phases[p := Done(Succeeded)]
            && t.snapshots == s.snapshots[id := Snapshot(id, sv.target, sv.projectRoot, sv.redact(s.file.Content()))]
  {
    var a := Advance(p, Fine(id));
    var s1 := To(s, p, Preflighted);
    assert Repeat(sv, ops, s, a, 1) == Next(sv, ops, s, a) == s1;
    var s2 := To(s, p, Locked).(lock := Some(p));
    assert Repeat(sv, ops, s, a, 2) == Next(sv, ops, s1, a) == s2;
    var s3 := To(s, p, Authorised(s.file)).(lock := Some(p));
    assert Repeat(sv, ops, s, a, 3) == Next(sv, ops, s2, a) == s3;
    var snapshot := Snapshot(id, sv.target, sv.projectRoot, sv.redact(s.file.Content()));
    var s4 := Logged(To(s, p, Ready(s.file, ops[p].content, Some(id)))
                     .(lock := Some(p), snapshots := s.snapshots[id := snapshot]), Snapped(p, snapshot));
    assert Repeat(sv, ops, s, a, 4) == Next(sv, ops, s3, a) == s4;
    UndisturbedEnd(sv, ops, s4, p, a.luck);
    assert Repeat(sv, ops, s, a, 6) == Next(sv, ops, Next(sv, ops, s4, a), a);
    assert s4.phases[p := Done(Succeeded)] == s.phases[p := Done(Succeeded)];
  }

  lemma UndisturbedToggle(sv: Services, ops: Operations, s: State, p: nat, id: string)
    requires p in ops && p in s.phases && s.phases[p] == Idle && s.lock == None && ops[p].Toggle?
    requires id !in s.snapshots && NUL !in id
    ensures var t := Repeat(sv, ops, s, Advance(p, Fine(id)), 6);
            var basis := sv.normalize(s.file.Content());
            var patched := sv.patch(ops[p].edit, basis);
            && t.lock == None
            && t.file == (if patched.Some? then Present(patched.value) else s.file)
            && t.phases == s.phases[p := Done(if patched.Some? then Succeeded else PatchFailed)]
            && t.snapshots == s.snapshots[id := Snapshot(id, sv.target, sv.projectRoot, sv.redact(basis))]
  {
    var a := Advance(p, Fine(id));
    var s1 := To(s, p, Preflighted);
    assert Repeat(sv, ops, s, a, 1) == Next(sv, ops, s, a) == s1;
    var s2 := To(s, p, Locked).(lock := Some(p));
    assert Repeat(sv, ops, s, a, 2) == Next(sv, ops, s1, a) == s2;
    var s3 := To(s, p, Authorised(s.file)).(lock := Some(p));
    assert Repeat(sv, ops, s, a, 3) == Next(sv, ops, s2, a) == s3;
    var s4 := Next(sv, ops, s3, a);
    assert Repeat(sv, ops, s, a, 4) == s4;
    assert Repeat(sv, ops, s, a, 6) == Next(sv, ops, Next(sv, ops, s4, a), a);
    var patched := sv.patch(ops[p].edit, sv.normalize(s.file.Content()));
    if patched.Some? {
      assert s4.phases == s.phases[p := Ready(s.file, patched.value, Some(id))];
      UndisturbedEnd(sv, ops, s4, p, a.luck);
      assert s4.phases[p := Done(Succeeded)] == s.phases[p := Done(Succeeded)];
    } else {
      assert s4.phases == s.phases[p := Done(PatchFailed)];
    }
  }

  /** Replacing, reading back and unlocking. */
  lemma UndisturbedEnd(sv: Services, ops: Operations, s: State, p: nat, luck: Luck)
    requires p in ops && p in s.phases && s.phases[p].Ready? && luck.Fine?
    ensures var t := Next(sv, ops, Next(sv, ops, s, Advance(p, luck)), Advance(p, luck));
            && t.file == Present(s.phases[p].replacement) && t.lock == None
            && t.phases == s.phases[p := Done(Succeeded)] && t.snapshots == s.snapshots
  {
    var u := Next(sv, ops, s, Advance(p, luck));
    assert u.phases[p] == Written(s.phases[p].current, s.phases[p].replacement);
    assert u.phases[p := Done(Succeeded)] == s.phases[p := Done(Succeeded)];
  }

  /** A fresh preview's rollback is refused exactly for redacted snapshots, and else puts the snapshot back. */
  lemma UndisturbedRollback(sv: Services, ops: Operations, s: State, p: nat, id: string)
    requires p in ops && p in s.phases && s.phases[p] == Idle && s.lock == None
    requires id in s.snapshots && PreviewRollback(sv, s, id).Some?
    requires ops[p] == Rollback(id, PreviewRollback(sv, s, id).value.token)
    ensures var t := Repeat(sv, ops, s, Advance(p, Fine("")), 5);
            var supported := PreviewRollback(sv, s, id).value.supported;
            && t.snapshots == s.snapshots && t.lock == None
            && t.file == (if supported then Present(s.snapshots[id].content) else s.file)
            && t.phases == s.phases[p := Done(if supported then Succeeded else RefusedRedacted)]
  {
    var a := Advance(p, Fine(""));
    var s1 := To(s, p, Preflighted);
    assert Repeat(sv, ops, s, a, 1) == Next(sv, ops, s, a) == s1;
    var s2 := To(s, p, Locked).(lock := Some(p));
    assert Repeat(sv, ops, s, a, 2) == Next(sv, ops, s1, a) == s2;
    var s3 := Next(sv, ops, s2, a);
    assert Repeat(sv, ops, s, a, 3) == s3;
    assert Repeat(sv, ops, s, a, 5) == Next(sv, ops, Next(sv, ops, s3, a), a);
    if sv.isRedacted(s.snapshots[id].content) {
      assert s3 == To(s, p, Done(RefusedRedacted)).(lock := None);
    } else {
      assert s3 == To(s, p, Ready(s.file, s.snapshots[id].content, None)).(lock := Some(p));
      UndisturbedEnd(sv, ops, s3, p, a.luck);
      assert s3.phases[p := Done(Succeeded)] == s.phases[p := Done(Succeeded)];
    }
  }

  /**
    Saving, previewing and rolling back returns to the content before the save, or is refused
    without a write. A file that was missing comes back present and empty.
   */
  lemma SaveThenRollback(sv: Services, ops: Operations, s: State, p: nat, q: nat, id: string)
    requires p in ops && q in ops && p != q && p in s.phases && q in s.phases
    requires s.phases[p] == Idle && s.phases[q] == Idle && s.lock == None && ops[p].Save?
    requires sv.isJson(ops[p].content) && id !in s.snapshots && NUL !in id
    requires ops[p].expected == Revision(sv.hash, s.file) && RedactsVisibly(sv)
    requires var saved := Repeat(sv, ops, s, Advance(p, Fine(id)), 6);
             PreviewRollback(sv, saved, id).Some? && ops[q] == Rollback(id, PreviewRollback(sv, saved, id).value.token)
    ensures var saved := Repeat(sv, ops, s, Advance(p, Fine(id)), 6);
            var t := Repeat(sv, ops, saved, Advance(q, Fine("")), 5);
            q in t.phases &&
            if sv.isRedacted(sv.redact(s.file.Content())) then
              t.phases[q] == Done(RefusedRedacted) && t.file == saved.file
            else
              && t.phases[q] == Done(Succeeded) && t.file == Present(s.file.Content())
              && (t.file == s.file <==> s.file.Present?)
  {
    UndisturbedSave(sv, ops, s, p, id);
    UndisturbedRollback(sv, ops, Repeat(sv, ops, s, Advance(p, Fine(id)), 6), q, id);
  }

  /** With the redaction of snapshots as it is, rollback is exact. */
  lemma RedactionFits(sv: Services, codec: Redaction.Codec)
    requires forall x :: sv.redact(x) == Redaction.RedactSnapshotContent(codec, x)
    requires forall x :: sv.isRedacted(x) == Redaction.IsRedactedSnapshot(x)
    ensures RedactsVisibly(sv)
  {
    forall x ensures sv.redact(x) == x || sv.isRedacted(sv.redact(x)) {
      Redaction.RedactionIsVisible(codec, x);
    }
  }
}
