/**
  Reversible physical removal (crates/commands/src/skill_manager.rs).

  Every target of a removal plan is re-checked against its previewed revision, renamed into a
  private backup directory, hashed again there, and only deleted once a rescan has confirmed the
  removal; any earlier failure renames the targets back in reverse order.

  The file system is a map from paths to nodes. Every file-system call may fail. Other programs may
  create, change or delete anything outside the private directories before every call that reads or
  writes such a path, between the final check and the deletion, and during the deletion.
 */
module PhysicalRemoval {
  import opened Common

  datatype EntryKind = Symlink | Directory

  /** `Skill` stands for a whole link or copied directory; its revision identifies its contents. */
  datatype Node = Skill(kind: EntryKind, revision: string) | PrivateDir | Other(data: string)

  /**
    Targets are pairwise distinct and not nested, and a fresh nonce keeps the private names apart
    from all others, so the i-th target's original path, its private directory and its backup in
    that directory are three constructors.
   */
  datatype Path = Original(index: nat) | BackupRoot(index: nat) | Backup(index: nat) | Elsewhere(name: string)

  datatype Target = Target(kind: EntryKind, revision: string)

  type FileTree = map<Path, Node>

  datatype Outcome = Completed | Failed | RollbackIncomplete | CleanupIncomplete

  /**
    One instant of a removal. `baseline` is the tree as it would be had the removal never run:
    outside edits reach it, the removal's own steps do not. `held` are the targets moved away and
    not moved back, and `intruders` what others have put at their original paths meanwhile; those
    edits are not part of the baseline.
   */
  datatype View = View(fs: FileTree, baseline: FileTree, held: set<nat>, intruders: FileTree)

  function At(tree: FileTree, p: Path): Option<Node> {
    if p in tree then Some(tree[p]) else None
  }

  lemma SameEverywhere(a: FileTree, b: FileTree)
    requires forall p :: At(a, p) == At(b, p)
    ensures a == b
  {
    assert forall p :: p in a ==> At(a, p) == At(b, p);
    assert forall p :: p in b ==> At(a, p) == At(b, p);
  }

  function Previewed(target: Target): Node {
    Skill(target.kind, target.revision)
  }

  ghost predicate ConservedAt(v: View, p: Path) {
    match p
    case Elsewhere(_) =>
      At(v.fs, p) == At(v.baseline, p)
    case Original(i) =>
      if i in v.held then p in v.baseline && At(v.fs, p) == At(v.intruders, p)
      else At(v.fs, p) == At(v.baseline, p)
    case Backup(i) =>
      if i in v.held then
        Original(i) in v.baseline && At(v.fs, p) == Some(v.baseline[Original(i)]) && p !in v.baseline
      else At(v.fs, p) == At(v.baseline, p)
    case BackupRoot(i) =>
      if p in v.baseline then At(v.fs, p) == At(v.baseline, p)
      else (i in v.held ==> p in v.fs) && (p in v.fs ==> v.fs[p] == PrivateDir)
  }

  /** Nothing is lost: moved entries are in their backups, everything else is where it belongs. */
  ghost predicate Conserved(v: View) {
    && (forall i: nat :: Backup(i) in v.baseline ==> BackupRoot(i) in v.baseline)
    && (forall p :: ConservedAt(v, p))
    && (forall p :: p in v.intruders ==> p.Original? && p.index in v.held)
    && (forall i: nat :: i in v.held ==> BackupRoot(i) !in v.baseline)
  }

  /** The tree is as it would be without the removal, but for empty private directories. */
  ghost predicate Restored(fs: FileTree, baseline: FileTree) {
    && (forall p :: p in baseline ==> p in fs && fs[p] == baseline[p])
    && (forall p :: p in fs && p !in baseline ==>
          p.BackupRoot? && fs[p] == PrivateDir && Backup(p.index) !in fs)
  }

  ghost predicate AllPreviewed(targets: seq<Target>, baseline: FileTree) {
    forall i: nat :: i < |targets| ==> At(baseline, Original(i)) == Some(Previewed(targets[i]))
  }

  ghost predicate IsTarget(targets: seq<Target>, p: Path) {
    p.Original? && p.index < |targets|
  }

  /** The tree without the targets. */
  ghost function WithoutTargets(targets: seq<Target>, tree: FileTree): FileTree {
    map p | p in tree && !IsTarget(targets, p) :: tree[p]
  }

  // ----- one step at a time -----------------------------------------------------------------

  function Move(tree: FileTree, src: Path, dst: Path): FileTree
    requires src in tree
  {
    (tree - {src})[dst := tree[src]]
  }

  function Staged(v: View, i: nat): View
    requires Original(i) in v.fs
  {
    v.(fs := Move(v.fs, Original(i), Backup(i)), held := v.held + {i})
  }

  /** Renaming back replaces whatever others have put at the original path meanwhile. */
  function Unstaged(v: View, i: nat): View
    requires Backup(i) in v.fs
  {
    v.(fs := Move(v.fs, Backup(i), Original(i)), held := v.held - {i}, intruders := v.intruders - {Original(i)})
  }

  /** An outside edit of one path: it reaches the baseline unless the path's entry is held. */
  function Edited(v: View, p: Path, content: Option<Node>): View {
    var fs := Put(v.fs, p, content);
    if p.Original? && p.index in v.held then v.(fs := fs, intruders := Put(v.intruders, p, content))
    else v.(fs := fs, baseline := Put(v.baseline, p, content))
  }

  function Put(tree: FileTree, p: Path, content: Option<Node>): FileTree {
    if content.Some? then tree[p := content.value] else tree - {p}
  }

  /** Renaming a target into its private directory conserves every entry. */
  lemma StageConserves(v: View, i: nat)
    requires Conserved(v)
    requires i !in v.held && Original(i) in v.fs
    requires BackupRoot(i) in v.fs && BackupRoot(i) !in v.baseline
    ensures Conserved(Staged(v, i))
  {
    var w := Staged(v, i);
    forall p ensures ConservedAt(w, p) {
      assert ConservedAt(v, p);
      assert ConservedAt(v, Original(i));
    }
  }

  /** Renaming a backup to its original path conserves every entry but an intruder that is there. */
  lemma RestoreConserves(v: View, i: nat)
    requires Conserved(v)
    requires i in v.held
    ensures Backup(i) in v.fs && Conserved(Unstaged(v, i))
  {
    assert ConservedAt(v, Backup(i)) && ConservedAt(v, Original(i));
    var w := Unstaged(v, i);
    forall p ensures ConservedAt(w, p) {
      assert ConservedAt(v, p);
    }
  }

  lemma EditConserves(v: View, p: Path, content: Option<Node>)
    requires Conserved(v) && (p.Original? || p.Elsewhere?)
    ensures Conserved(Edited(v, p, content))
  {
    var w := Edited(v, p, content);
    forall q ensures ConservedAt(w, q) {
      assert ConservedAt(v, q);
    }
  }

  /** A private directory that the baseline does not know may come and go while it is empty. */
  lemma PrivateDirConserves(v: View, i: nat)
    requires Conserved(v) && BackupRoot(i) !in v.baseline
    ensures Conserved(v.(fs := v.fs[BackupRoot(i) := PrivateDir]))
    ensures i !in v.held ==> Conserved(v.(fs := v.fs - {BackupRoot(i)}))
  {
    var w, x := v.(fs := v.fs[BackupRoot(i) := PrivateDir]), v.(fs := v.fs - {BackupRoot(i)});
    forall p ensures ConservedAt(w, p) && (i !in v.held ==> ConservedAt(x, p)) {
      assert ConservedAt(v, p);
    }
  }

  /** What `Conserved` means for one target: its entry is at exactly one of its two places. */
  lemma EachEntryInOnePlace(v: View, i: nat)
    requires Conserved(v)
    requires Original(i) in v.baseline && BackupRoot(i) !in v.baseline
    ensures i in v.held ==>
              && At(v.fs, Backup(i)) == At(v.baseline, Original(i))
              && At(v.fs, Original(i)) == At(v.intruders, Original(i))
    ensures i !in v.held ==>
              && At(v.fs, Backup(i)) == None
              && At(v.fs, Original(i)) == At(v.baseline, Original(i))
  {
    assert ConservedAt(v, Backup(i)) && ConservedAt(v, Original(i));
  }

  lemma NothingHeldIsRestored(v: View)
    requires Conserved(v) && v.held == {}
    ensures Restored(v.fs, v.baseline)
  {
    forall p ensures p in v.baseline ==> p in v.fs && v.fs[p] == v.baseline[p] {
      assert ConservedAt(v, p);
    }
    forall p | p in v.fs && p !in v.baseline
      ensures p.BackupRoot? && v.fs[p] == PrivateDir && Backup(p.index) !in v.fs
    {
      assert ConservedAt(v, p);
      assert ConservedAt(v, Backup(p.index));
    }
  }

  // ----- the removal itself -----------------------------------------------------------------

  /**
    One step: an edit by another program, a look at a path (unanswered if the call failed), or a change by the removal.
   */
  datatype Step =
    | Edit(path: Path, content: Option<Node>)
    | Look(path: Path, answer: Option<bool>)
    | Set(path: Path, content: Option<Node>)
    | Rename(src: Path, dst: Path)

  function After(tree: FileTree, step: Step): FileTree {
    match step
    case Edit(p, content) => Put(tree, p, content)
    case Look(_, _) => tree
    case Set(p, content) => Put(tree, p, content)
    case Rename(src, dst) => if src in tree then Move(tree, src, dst) else tree
  }

  ghost function Indexes(n: nat): (indexes: set<nat>)
    ensures forall i: nat :: i in indexes <==> i < n
  {
    if n == 0 then {} else Indexes(n - 1) + {n - 1}
  }

  /** While entries are deleted every target is staged with its previewed contents, and nothing else changes. */
  ghost predicate DeletionAllowed(targets: seq<Target>, v: View) {
    && v.held == Indexes(|targets|)
    && AllPreviewed(targets, v.baseline)
    && (forall p: Path :: p.Original? || p.Elsewhere? ==> ConservedAt(v, p))
    && (forall p: Path :: p in v.intruders ==> p.Original? && p.index in v.held)
  }

  /**
    Every step of a removal, latest last, with the instant after it. `deleting` marks the final
    phase, in which staged entries are deleted.
   */
  datatype History =
    | Start(tree: FileTree)
    | Then(earlier: History, step: Step, deleting: bool, view: View)

  function Latest(history: History): FileTree {
    match history
    case Start(tree) => tree
    case Then(_, _, _, view) => view.fs
  }

  /** Since its last own change the removal has looked at `p`, and it was there or not. */
  ghost predicate Looked(history: History, p: Path, seen: bool) {
    match history
    case Start(_) => false
    case Then(earlier, Look(q, answer), _, _) => (q == p && (answer == Some(true)) == seen) || Looked(earlier, p, seen)
    case Then(earlier, Edit(_, _), _, _) => Looked(earlier, p, seen)
    case Then(_, _, _, _) => false
  }

  ghost predicate GoneUpTo(n: nat, history: History) {
    forall i: nat :: i < n ==> Looked(history, Original(i), false)
  }

  /** The check before the deletion: no target was seen at its original path, and every preserved path was. */
  ghost predicate Verified(targets: seq<Target>, preserved: seq<Path>, history: History) {
    && GoneUpTo(|targets|, history)
    && (forall k :: 0 <= k < |preserved| ==> Looked(history, preserved[k], true))
  }

  /** Since its last own change the removal has looked at `p` and found it free, and has not looked again. */
  ghost predicate CheckedFree(history: History, p: Path) {
    match history
    case Start(_) => false
    case Then(earlier, Look(q, answer), _, _) => if q == p then answer == Some(false) else CheckedFree(earlier, p)
    case Then(earlier, Edit(_, _), _, _) => CheckedFree(earlier, p)
    case Then(_, _, _, _) => false
  }

  /**
    Looks are answered truly, others edit only public paths, the removal itself writes only private ones, and it
    renames only to free paths, except back to an original path that it found free.
   */
  ghost predicate StepAllowed(earlier: History, step: Step) {
    match step
    case Edit(p, _) => p.Original? || p.Elsewhere?
    case Look(p, answer) => answer.Some? ==> answer.value == (p in Latest(earlier))
    case Set(p, _) => p.Backup? || p.BackupRoot?
    case Rename(src, dst) =>
      (dst.Backup? && src == Original(dst.index) && dst !in Latest(earlier)) ||
      (dst.Original? && src == Backup(dst.index) && CheckedFree(earlier, dst))
  }

  /**
    No change goes unrecorded and every step is allowed; nothing is lost before the final phase, and that phase
    begins only after the check.
   */
  ghost predicate Safe(targets: seq<Target>, preserved: seq<Path>, history: History) {
    match history
    case Start(_) => true
    case Then(earlier, step, deleting, view) =>
      && Safe(targets, preserved, earlier)
      && view.fs == After(Latest(earlier), step) && StepAllowed(earlier, step)
      && (if deleting then
          DeletionAllowed(targets, view) && (NothingDeleted(earlier) ==> Verified(targets, preserved, earlier))
          else Conserved(view) && NothingDeleted(earlier))
  }

  ghost predicate NothingDeleted(history: History) {
    match history
    case Start(_) => true
    case Then(earlier, _, deleting, _) => !deleting && NothingDeleted(earlier)
  }

  /** An instant of a recorded removal. */
  ghost predicate Occurs(history: History, deleting: bool, view: View) {
    match history
    case Start(_) => false
    case Then(earlier, _, d, v) => (d == deleting && v == view) || Occurs(earlier, deleting, view)
  }

  /**
    At every instant of a safe history each target's entry is at exactly one of its two places, until the final
    phase, in which every target is staged with its previewed contents and only staged entries can be gone.
   */
  lemma {:induction false} EveryInstant(
    targets: seq<Target>, preserved: seq<Path>, history: History, deleting: bool, view: View, i: nat)
    requires Safe(targets, preserved, history) && Occurs(history, deleting, view)
    ensures deleting ==> DeletionAllowed(targets, view)
    ensures !deleting ==> Conserved(view)
    ensures !deleting && Original(i) in view.baseline && BackupRoot(i) !in view.baseline ==>
              if i in view.held then
                && At(view.fs, Backup(i)) == At(view.baseline, Original(i))
                && At(view.fs, Original(i)) == At(view.intruders, Original(i))
              else
                At(view.fs, Backup(i)) == None && At(view.fs, Original(i)) == At(view.baseline, Original(i))
  {
    if !(history.deleting == deleting && history.view == view) {
      EveryInstant(targets, preserved, history.earlier, deleting, view, i);
    } else if !deleting && Original(i) in view.baseline && BackupRoot(i) !in view.baseline {
      EachEntryInOnePlace(view, i);
    }
  }

  /** `start` is an earlier stage of the history. */
  ghost predicate Began(start: History, history: History) {
    start == history || (history.Then? && Began(start, history.earlier))
  }

  /** After the look at `p` another program has put something there. */
  ghost predicate AppearedSinceLook(history: History, p: Path) {
    match history
    case Start(_) => false
    case Then(earlier, Edit(q, content), _, _) => (q == p && content.Some?) || AppearedSinceLook(earlier, p)
    case Then(earlier, Look(q, _), _, _) => q != p && AppearedSinceLook(earlier, p)
    case Then(_, _, _, _) => false
  }

  lemma {:induction false} TakenSinceLook(targets: seq<Target>, preserved: seq<Path>, history: History, p: Path)
    requires Safe(targets, preserved, history) && CheckedFree(history, p) && p in Latest(history)
    ensures AppearedSinceLook(history, p)
  {
    match history
    case Then(earlier, Edit(q, content), _, _) =>
      if !(q == p && content.Some?) {
        TakenSinceLook(targets, preserved, earlier, p);
      }
    case Then(earlier, Look(q, _), _, _) =>
      if q != p {
        TakenSinceLook(targets, preserved, earlier, p);
      }
    case _ =>
  }

  lemma {:induction false} EarlierIsSafe(targets: seq<Target>, preserved: seq<Path>, start: History, history: History)
    requires Safe(targets, preserved, history) && Began(start, history)
    ensures Safe(targets, preserved, start)
  {
    if start != history {
      EarlierIsSafe(targets, preserved, start, history.earlier);
    }
  }

  /**
    What the removal's own steps take from public paths: a target into its backup, and an entry that another program
    put at the original path of a target between the look that found it free and the rename back. Nothing else is
    lost there, and the second kind is the only loss.
   */
  lemma OnlyRacesLoseEntries(targets: seq<Target>, preserved: seq<Path>, stage: History, history: History, p: Path)
    requires Safe(targets, preserved, history) && Began(stage, history) && stage.Then? && !stage.step.Edit?
    requires p.Original? || p.Elsewhere?
    requires p in Latest(stage.earlier) && At(stage.view.fs, p) != At(Latest(stage.earlier), p)
    ensures p.Original?
    ensures || (stage.step == Rename(p, Backup(p.index)) &&
                At(stage.view.fs, Backup(p.index)) == At(Latest(stage.earlier), p))
            || (stage.step == Rename(Backup(p.index), p) && AppearedSinceLook(stage.earlier, p))
  {
    EarlierIsSafe(targets, preserved, stage, history);
    if stage.step.Rename? && stage.step.dst == p {
      TakenSinceLook(targets, preserved, stage.earlier, p);
    }
  }

  /** Stages one target of a tree, without a disturbance. */
  lemma OneStaged(targets: seq<Target>, preserved: seq<Path>, tree: FileTree, i: nat)
    returns (history: History, v: View)
    requires Original(i) in tree && BackupRoot(i) !in tree
    requires forall j: nat :: Backup(j) in tree ==> BackupRoot(j) in tree
    ensures Safe(targets, preserved, history) && NothingDeleted(history) && Began(Start(tree), history)
    ensures Latest(history) == v.fs && Conserved(v) && v.held == {i} && v.baseline == tree && v.intruders == map[]
    ensures v.fs == Move(tree[BackupRoot(i) := PrivateDir], Original(i), Backup(i))
  {
    var first := View(tree, tree, {}, map[]);
    assert Conserved(first);
    PrivateDirConserves(first, i);
    var prepared := first.(fs := tree[BackupRoot(i) := PrivateDir]);
    history := Then(Start(tree), Set(BackupRoot(i), Some(PrivateDir)), false, prepared);
    StageConserves(prepared, i);
    v := Staged(prepared, i);
    history := Then(history, Rename(Original(i), Backup(i)), false, v);
  }

  /**
    The loss that a rollback can cause: whatever another program puts at the original path of a staged target after
    the look is replaced by the rename back, and is nowhere afterwards.
   */
  lemma IntruderIsReplaced(
    targets: seq<Target>, preserved: seq<Path>, history: History, v: View, i: nat, node: Node) returns (end: History)
    requires Safe(targets, preserved, history) && NothingDeleted(history)
    requires Latest(history) == v.fs && Conserved(v) && i in v.held && Original(i) !in v.fs
    requires forall p :: At(v.fs, p) != Some(node)
    ensures Safe(targets, preserved, end) && Began(history, end)
    ensures end.Then? && end.step == Rename(Backup(i), Original(i)) && AppearedSinceLook(end.earlier, Original(i))
    ensures At(Latest(end.earlier), Original(i)) == Some(node)
    ensures At(Latest(end), Original(i)) == At(v.fs, Backup(i)) && forall p :: At(Latest(end), p) != Some(node)
  {
    var looked := Then(history, Look(Original(i), Some(false)), false, v);
    EditConserves(v, Original(i), Some(node));
    var w := Edited(v, Original(i), Some(node));
    var edited := Then(looked, Edit(Original(i), Some(node)), false, w);
    RestoreConserves(w, i);
    assert ConservedAt(v, Backup(i));
    end := Then(edited, Rename(Backup(i), Original(i)), false, Unstaged(w, i));
    BeganThen(history, history, looked);
    BeganThen(history, looked, edited);
    BeganThen(history, edited, end);
    forall p ensures At(Latest(end), p) != Some(node) {
      assert At(v.fs, p) != Some(node) && At(v.fs, Backup(i)) != Some(node);
    }
  }

  /** Such a run from the start: one staged target, one intruder, and the rename back over it. */
  lemma RaceLosesIntruder(targets: seq<Target>, preserved: seq<Path>, revision: string, data: string)
    returns (end: History)
    ensures Safe(targets, preserved, end) && Began(Start(map[Original(0) := Skill(Directory, revision)]), end)
    ensures end.Then? && end.step == Rename(Backup(0), Original(0))
    ensures At(Latest(end.earlier), Original(0)) == Some(Other(data))
    ensures At(Latest(end), Original(0)) == Some(Skill(Directory, revision))
    ensures forall p :: At(Latest(end), p) != Some(Other(data))
  {
    var tree: FileTree := map[Original(0) := Skill(Directory, revision)];
    var history, v := OneStaged(targets, preserved, tree, 0);
    end := IntruderIsReplaced(targets, preserved, history, v, 0, Other(data));
    BeganTransitive(Start(tree), history, end);
  }

  /** The conditions under which an undisturbed removal goes through. */
  ghost predicate Removable(targets: seq<Target>, preserved: seq<Path>, tree: FileTree) {
    && AllPreviewed(targets, tree)
    && (forall i: nat :: i < |targets| ==> BackupRoot(i) !in tree)
    && (forall k :: 0 <= k < |preserved| ==> preserved[k] in tree && !IsTarget(targets, preserved[k]))
  }

  ghost predicate PrivatePartsSame(a: FileTree, b: FileTree) {
    && (forall i: nat :: At(a, Backup(i)) == At(b, Backup(i)))
    && (forall i: nat :: At(a, BackupRoot(i)) == At(b, BackupRoot(i)))
  }

  ghost predicate HeldPartsSame(held: set<nat>, a: FileTree, b: FileTree) {
    forall i: nat :: i in held ==> At(a, Original(i)) == At(b, Original(i))
  }

  /** The first `i` targets were found as previewed, and the other private directories are untouched. */
  ghost predicate StagedUpTo(i: nat, targets: seq<Target>, fs: FileTree, baseline: FileTree) {
    && (forall j: nat :: j < i && j < |targets| ==> At(baseline, Original(j)) == Some(Previewed(targets[j])))
    && (forall j: nat :: j >= i ==> At(fs, BackupRoot(j)) == At(baseline, BackupRoot(j)))
  }

  lemma NextStaged(
    i: nat, targets: seq<Target>, oldFs: FileTree, oldBaseline: FileTree, fs: FileTree, baseline: FileTree)
    requires i < |targets| && StagedUpTo(i, targets, oldFs, oldBaseline)
    requires At(baseline, Original(i)) == Some(Previewed(targets[i]))
    requires HeldPartsSame(Indexes(i), baseline, oldBaseline) && PrivatePartsSame(baseline, oldBaseline)
    requires forall j: nat :: j != i ==> At(fs, BackupRoot(j)) == At(oldFs, BackupRoot(j))
    ensures StagedUpTo(i + 1, targets, fs, baseline)
  {
    forall j: nat | j < i ensures At(baseline, Original(j)) == Some(Previewed(targets[j])) {
      assert j in Indexes(i);
    }
  }

  lemma EditKeepsParts(v: View, p: Path, content: Option<Node>)
    requires p.Original? || p.Elsewhere?
    ensures PrivatePartsSame(Edited(v, p, content).fs, v.fs) &&
            PrivatePartsSame(Edited(v, p, content).baseline, v.baseline)
    ensures HeldPartsSame(v.held, Edited(v, p, content).baseline, v.baseline)
  {
  }

  /** What stays the same while others act: the private parts, and the baseline of what is held. */
  ghost predicate SameParts(v: View, w: View) {
    && w.held == v.held && PrivatePartsSame(w.fs, v.fs) && PrivatePartsSame(w.baseline, v.baseline)
    && HeldPartsSame(v.held, w.baseline, v.baseline)
  }

  lemma SamePartsTransitive(u: View, v: View, w: View)
    requires SameParts(u, v) && SameParts(v, w)
    ensures SameParts(u, w)
  {
  }

  /** Once every target is staged, all that can still be missing is a preserved path. */
  lemma StagedIsRemovable(targets: seq<Target>, preserved: seq<Path>, v: View)
    requires Conserved(v) && v.held == Indexes(|targets|) && AllPreviewed(targets, v.baseline)
    requires forall k :: 0 <= k < |preserved| ==> preserved[k].Original? || preserved[k].Elsewhere?
    ensures v.intruders == map[] ==>
              (Removable(targets, preserved, v.baseline) <==> forall k :: 0 <= k < |preserved| ==> preserved[k] in v.fs)
  {
    if v.intruders == map[] {
      forall k | 0 <= k < |preserved|
        ensures preserved[k] in v.fs <==> preserved[k] in v.baseline && !IsTarget(targets, preserved[k])
      {
        assert ConservedAt(v, preserved[k]);
      }
    }
  }

  lemma HeldIsGone(v: View, i: nat)
    requires Conserved(v) && i in v.held
    ensures v.intruders == map[] ==> Original(i) !in v.fs
  {
    assert ConservedAt(v, Original(i));
  }

  lemma StagedMayBeDeleted(targets: seq<Target>, staged: View, v: View)
    requires staged.held == Indexes(|targets|) && AllPreviewed(targets, staged.baseline)
    requires Conserved(v) && SameParts(staged, v)
    ensures DeletionAllowed(targets, v)
  {
    forall i: nat | i < |targets| ensures At(v.baseline, Original(i)) == Some(Previewed(targets[i])) {
      assert i in staged.held;
    }
  }

  ghost predicate PrivatePartsSameBut(i: nat, a: FileTree, b: FileTree) {
    forall j: nat :: j != i ==> At(a, Backup(j)) == At(b, Backup(j)) && At(a, BackupRoot(j)) == At(b, BackupRoot(j))
  }

  ghost predicate PrivatePartsSameFrom(i: nat, a: FileTree, b: FileTree) {
    forall j: nat :: j >= i ==> At(a, Backup(j)) == At(b, Backup(j)) && At(a, BackupRoot(j)) == At(b, BackupRoot(j))
  }

  ghost predicate DeletedUpTo(i: nat, tree: FileTree) {
    forall j: nat :: j < i ==> At(tree, Backup(j)) == None && At(tree, BackupRoot(j)) == None
  }

  lemma NextDeleted(i: nat, before: FileTree, tree: FileTree)
    requires PrivatePartsSameBut(i, tree, before)
    ensures DeletedUpTo(i, before) && At(tree, Backup(i)) == None && At(tree, BackupRoot(i)) == None ==>
            DeletedUpTo(i + 1, tree)
  {
  }

  /** Outside edits do not disturb what allows the deletion. */
  lemma LateEditAllowed(targets: seq<Target>, v: View, p: Path, content: Option<Node>)
    requires DeletionAllowed(targets, v) && (p.Original? || p.Elsewhere?)
    ensures DeletionAllowed(targets, Edited(v, p, content))
  {
    var w := Edited(v, p, content);
    forall q: Path | q.Original? || q.Elsewhere? ensures ConservedAt(w, q) {
      assert ConservedAt(v, q);
    }
  }

  lemma PrivateChangeAllowed(targets: seq<Target>, v: View, p: Path, content: Option<Node>)
    requires DeletionAllowed(targets, v) && (p.Backup? || p.BackupRoot?)
    ensures DeletionAllowed(targets, v.(fs := Put(v.fs, p, content)))
  {
    var w := v.(fs := Put(v.fs, p, content));
    forall q: Path | q.Original? || q.Elsewhere? ensures ConservedAt(w, q) {
      assert ConservedAt(v, q);
    }
  }

  lemma {:induction false} BeganTransitive(a: History, b: History, c: History)
    requires Began(a, b) && Began(b, c)
    ensures Began(a, c)
  {
    if b != c {
      BeganTransitive(a, b, c.earlier);
    }
  }

  lemma BeganThen(a: History, b: History, c: History)
    requires Began(a, b) && (c == b || (c.Then? && c.earlier == b))
    ensures Began(a, c)
  {
  }

  /** Everything seen by looking is still seen. */
  ghost predicate LooksKept(earlier: History, history: History) {
    && (forall p, seen :: Looked(earlier, p, seen) ==> Looked(history, p, seen))
    && (forall p :: CheckedFree(earlier, p) ==> CheckedFree(history, p))
  }

  lemma NextGone(i: nat, earlier: History, history: History)
    requires forall q, s :: Looked(earlier, q, s) ==> Looked(history, q, s)
    ensures GoneUpTo(i, earlier) && Looked(history, Original(i), false) ==> GoneUpTo(i + 1, history)
  {
  }

  class Removal {
    const targets: seq<Target>
    const preserved: seq<Path>
    var fs: FileTree
    ghost var baseline: FileTree
    ghost var held: set<nat>
    ghost var intruders: FileTree
    ghost var history: History
    /** No call has failed and no outside edit has happened so far. */
    ghost var undisturbed: bool

    ghost function Now(): View
      reads this
    {
      View(fs, baseline, held, intruders)
    }

    ghost predicate Recorded()
      reads this
    {
      && Safe(targets, preserved, history)
      && Latest(history) == fs
      && (forall k :: 0 <= k < |preserved| ==> preserved[k].Original? || preserved[k].Elsewhere?)
      && (undisturbed ==> intruders == map[])
    }

    /** If nothing is deleted yet, the check has been made. */
    ghost predicate Cleared()
      reads this
    {
      NothingDeleted(history) ==> Verified(targets, preserved, history)
    }

    /** Holds while the removal can still be undone. */
    ghost predicate Valid()
      reads this
    {
      Recorded() && Conserved(Now()) && NothingDeleted(history)
    }

    constructor (targets: seq<Target>, preserved: seq<Path>, tree: FileTree)
      requires forall i: nat :: Backup(i) in tree ==> BackupRoot(i) in tree
      requires forall k :: 0 <= k < |preserved| ==> preserved[k].Original? || preserved[k].Elsewhere?
      ensures Valid() && this.targets == targets && this.preserved == preserved
      ensures fs == baseline == tree && held == {} && history == Start(tree) && undisturbed
    {
      this.targets, this.preserved := targets, preserved;
      fs, baseline, held, intruders, history, undisturbed := tree, tree, {}, map[], Start(tree), true;
    }

    /** One edit by another program, anywhere outside the private directories. */
    method OutsideEdit()
      requires Valid()
      modifies `fs, `baseline, `intruders, `history, `undisturbed
      ensures Valid()
      ensures PrivatePartsSame(fs, old(fs)) && PrivatePartsSame(baseline, old(baseline))
      ensures HeldPartsSame(held, baseline, old(baseline))
      ensures undisturbed ==> old(undisturbed) && fs == old(fs) && baseline == old(baseline)
      ensures LooksKept(old(history), history)
    {
      var p: Path := *;
      var content: Option<Node> := *;
      if p.Original? || p.Elsewhere? {
        ghost var w := Edited(Now(), p, content);
        EditConserves(Now(), p, content);
        EditKeepsParts(Now(), p, content);
        fs := Put(fs, p, content);
        baseline, intruders, undisturbed := w.baseline, w.intruders, false;
        assert Now() == w;
        history := Then(history, Edit(p, content), false, Now());
      }
    }

    /** Other programs at work: any number of edits. */
    method OutsideEdits()
      requires Valid()
      modifies `fs, `baseline, `intruders, `history, `undisturbed
      ensures Valid()
      ensures PrivatePartsSame(fs, old(fs)) && PrivatePartsSame(baseline, old(baseline))
      ensures HeldPartsSame(held, baseline, old(baseline))
      ensures undisturbed ==> old(undisturbed) && fs == old(fs) && baseline == old(baseline)
      ensures LooksKept(old(history), history)
    {
      var edits: nat :| true;
      for k := 0 to edits
        invariant Valid()
        invariant PrivatePartsSame(fs, old(fs)) && PrivatePartsSame(baseline, old(baseline))
        invariant HeldPartsSame(held, baseline, old(baseline))
        invariant undisturbed ==> old(undisturbed) && fs == old(fs) && baseline == old(baseline)
        invariant LooksKept(old(history), history)
      {
        OutsideEdit();
      }
    }

    method Fault() returns (fault: bool)
      modifies `undisturbed
      ensures undisturbed == (old(undisturbed) && !fault)
    {
      fault := *;
      if fault {
        undisturbed := false;
      }
    }

    /** `symlink_metadata`: `None` when the call fails for another reason than a missing path. */
    method Lookup(p: Path) returns (exists': Option<bool>)
      requires Valid()
      modifies `history, `undisturbed
      ensures Valid() && history == Then(old(history), Look(p, exists'), false, Now())
      ensures exists'.Some? ==> exists'.value == (p in fs)
      ensures undisturbed ==> old(undisturbed) && exists'.Some?
    {
      var fault := Fault();
      exists' := if fault then None else Some(p in fs);
      history := Then(history, Look(p, exists'), false, Now());
    }

    /** The kind and revision of the entry at `p`, unless it cannot be read or is no skill. */
    method ReadEntry(p: Path) returns (entry: Option<Target>)
      modifies `undisturbed
      ensures entry.Some? ==> At(fs, p) == Some(Previewed(entry.value))
      ensures undisturbed ==> old(undisturbed)
      ensures undisturbed && p in fs && fs[p].Skill? ==> entry.Some?
    {
      var fault := Fault();
      if fault || p !in fs || !fs[p].Skill? {
        entry := None;
      } else {
        entry := Some(Target(fs[p].kind, fs[p].revision));
      }
    }

    method CreatePrivateRoot(i: nat) returns (ok: bool)
      requires Valid() && i !in held
      modifies `fs, `history, `undisturbed
      ensures Valid()
      ensures ok ==> BackupRoot(i) !in baseline && fs == old(fs)[BackupRoot(i) := PrivateDir]
      ensures forall p :: p != BackupRoot(i) ==> At(fs, p) == At(old(fs), p)
      ensures undisturbed ==> old(undisturbed) && ok == (BackupRoot(i) !in old(fs))
    {
      var failed := Fault();
      assert ConservedAt(Now(), BackupRoot(i));
      if failed || BackupRoot(i) in fs {
        return false;
      }
      PrivateDirConserves(Now(), i);
      fs := fs[BackupRoot(i) := PrivateDir];
      history := Then(history, Set(BackupRoot(i), Some(PrivateDir)), false, Now());
      var permissionsFailed := Fault();
      if permissionsFailed {
        var _ := RemoveRoot(i);
        return false;
      }
      return true;
    }

    method RemoveRoot(i: nat) returns (ok: bool)
      requires Valid() && BackupRoot(i) !in baseline
      modifies `fs, `history, `undisturbed
      ensures Valid()
      ensures fs == if ok then old(fs) - {BackupRoot(i)} else old(fs)
      ensures ok ==> i !in held
      ensures undisturbed ==> old(undisturbed) && ok == (BackupRoot(i) in old(fs) && Backup(i) !in old(fs))
    {
      var failed := Fault();
      if failed || BackupRoot(i) !in fs || Backup(i) in fs {
        return false;
      }
      assert ConservedAt(Now(), Backup(i));
      PrivateDirConserves(Now(), i);
      fs := fs - {BackupRoot(i)};
      history := Then(history, Set(BackupRoot(i), None), false, Now());
      return true;
    }

    method RenameToBackup(i: nat) returns (ok: bool)
      requires Valid() && i !in held && BackupRoot(i) in fs && BackupRoot(i) !in baseline
      modifies `fs, `held, `history, `undisturbed
      ensures Valid()
      ensures if ok then Original(i) in old(fs) && Now() == Staged(old(Now()), i) else Now() == old(Now())
      ensures undisturbed ==> old(undisturbed) && ok == (Original(i) in old(fs))
    {
      var failed := Fault();
      if failed || Original(i) !in fs {
        return false;
      }
      assert ConservedAt(Now(), Backup(i));
      StageConserves(Now(), i);
      fs := Move(fs, Original(i), Backup(i));
      held := held + {i};
      history := Then(history, Rename(Original(i), Backup(i)), false, Now());
      return true;
    }

    /**
      `rename` onto an original path that was found free: an intruder makes it fail or is replaced, as the kinds
      decide.
     */
    method RenameBack(i: nat) returns (ok: bool)
      requires Valid() && i in held && CheckedFree(history, Original(i))
      modifies `fs, `held, `intruders, `history, `undisturbed
      ensures Valid()
      ensures Backup(i) in old(fs)
      ensures if ok then Now() == Unstaged(old(Now()), i) else Now() == old(Now())
      ensures undisturbed ==> old(undisturbed) && ok
    {
      RestoreConserves(Now(), i);
      assert ConservedAt(Now(), Original(i));
      var failed := Fault();
      var refused := *;
      if failed || (Original(i) in fs && refused) {
        return false;
      }
      fs := Move(fs, Backup(i), Original(i));
      held, intruders := held - {i}, intruders - {Original(i)};
      history := Then(history, Rename(Backup(i), Original(i)), false, Now());
      return true;
    }

    /** Looks at the original path and then at the backup; others may act in between. */
    method LookBeforeRename(i: nat) returns (originalExists: Option<bool>, backupExists: Option<bool>)
      requires Valid() && i in held
      modifies `fs, `baseline, `intruders, `history, `undisturbed
      ensures Valid()
      ensures PrivatePartsSame(fs, old(fs)) && PrivatePartsSame(baseline, old(baseline))
      ensures originalExists == Some(false) ==> CheckedFree(history, Original(i))
      ensures backupExists.Some? ==> backupExists.value
      ensures undisturbed ==> old(undisturbed) && originalExists == Some(false) && backupExists == Some(true)
      ensures undisturbed ==> baseline == old(baseline)
    {
      assert ConservedAt(Now(), Original(i));
      originalExists := Lookup(Original(i));
      OutsideEdits();
      assert ConservedAt(Now(), Backup(i));
      backupExists := Lookup(Backup(i));
    }

    /** Renames one target back if its place is found free; returns how many steps failed. */
    method RestoreOne(i: nat) returns (failures: nat)
      requires Valid() && i in held
      modifies `fs, `baseline, `intruders, `held, `history, `undisturbed
      ensures Valid()
      ensures held == if failures == 0 then old(held) - {i} else old(held)
      ensures PrivatePartsSame(baseline, old(baseline))
      ensures At(fs, BackupRoot(i)) == At(old(fs), BackupRoot(i))
      ensures undisturbed ==> old(undisturbed) && failures == 0 && baseline == old(baseline)
    {
      failures := 0;
      var originalExists, backupExists := LookBeforeRename(i);
      if originalExists == Some(false) && backupExists == Some(true) {
        OutsideEdits();
        var renamed := RenameBack(i);
        if !renamed {
          failures := failures + 1;
        }
      } else if originalExists == Some(true) && backupExists == Some(false) {
      } else {
        failures := failures + 1;
      }
    }

    /** Removes a private directory once it is empty; returns how many steps failed. */
    method RemoveEmptiedRoot(i: nat) returns (failures: nat)
      requires Valid() && At(baseline, BackupRoot(i)) == None && BackupRoot(i) in fs
      modifies `fs, `history, `undisturbed
      ensures Valid()
      ensures undisturbed ==> old(undisturbed) && (i !in held ==> failures == 0)
    {
      assert ConservedAt(Now(), BackupRoot(i)) && ConservedAt(Now(), Backup(i));
      failures := 0;
      var backupRemains := Lookup(Backup(i));
      if backupRemains == Some(false) {
        var removed := RemoveRoot(i);
        if !removed {
          failures := failures + 1;
        }
      } else if backupRemains == None {
        failures := failures + 1;
      }
    }

    method RollbackOne(i: nat) returns (failures: nat)
      requires Valid() && i in held
      modifies `fs, `baseline, `intruders, `held, `history, `undisturbed
      ensures Valid()
      ensures held == old(held) || held == old(held) - {i}
      ensures failures == 0 ==> held == old(held) - {i}
      ensures undisturbed ==> old(undisturbed) && failures == 0 && baseline == old(baseline)
    {
      OutsideEdits();
      assert ConservedAt(Now(), BackupRoot(i));
      var restoreFailures := RestoreOne(i);
      assert ConservedAt(Now(), BackupRoot(i));
      var removeFailures := RemoveEmptiedRoot(i);
      failures := restoreFailures + removeFailures;
    }

    /** Renames the first `count` targets back, last one first, and counts what could not be undone. */
    method RollbackStaged(count: nat) returns (ok: bool)
      requires Valid() && held == Indexes(count)
      modifies `fs, `baseline, `intruders, `held, `history, `undisturbed
      ensures Valid()
      ensures ok ==> held == {}
      ensures undisturbed ==> old(undisturbed) && ok && baseline == old(baseline)
    {
      var failureCount := 0;
      var i := count;
      while i > 0
        invariant 0 <= i <= count
        invariant Valid()
        invariant forall j: nat :: j < i ==> j in held
        invariant failureCount == 0 ==> forall j: nat :: j in held ==> j < i
        invariant undisturbed ==> old(undisturbed) && failureCount == 0 && baseline == old(baseline)
      {
        i := i - 1;
        var failures := RollbackOne(i);
        failureCount := failureCount + failures;
      }
      return failureCount == 0;
    }

    method FailAfterRollback(count: nat) returns (outcome: Outcome)
      requires Valid() && held == Indexes(count)
      modifies `fs, `baseline, `intruders, `held, `history, `undisturbed
      ensures Valid()
      ensures outcome.Failed? || outcome.RollbackIncomplete?
      ensures outcome.Failed? ==> held == {}
      ensures undisturbed ==> old(undisturbed) && outcome.Failed? && baseline == old(baseline)
    {
      var ok := RollbackStaged(count);
      return if ok then Failed else RollbackIncomplete;
    }

    /** Hashes a staged entry again. */
    method StagedAsPreviewed(i: nat) returns (ok: bool)
      requires Valid() && i < |targets| && i in held
      modifies `undisturbed
      ensures Valid()
      ensures ok ==> At(baseline, Original(i)) == Some(Previewed(targets[i]))
      ensures undisturbed ==> old(undisturbed)
      ensures undisturbed && !ok ==> At(baseline, Original(i)) != Some(Previewed(targets[i]))
    {
      assert ConservedAt(Now(), Backup(i));
      var entry := ReadEntry(Backup(i));
      return entry == Some(targets[i]);
    }

    /** Removes the private directory of a target that could not be moved, and rolls the others back. */
    method AbandonRoot(i: nat) returns (outcome: Outcome)
      requires Valid() && held == Indexes(i) && BackupRoot(i) !in baseline
      modifies `fs, `baseline, `intruders, `held, `history, `undisturbed
      ensures Valid()
      ensures outcome.Failed? || outcome.RollbackIncomplete?
      ensures outcome.Failed? ==> held == {}
      ensures undisturbed ==> old(undisturbed) && outcome.Failed? && baseline == old(baseline)
    {
      var _ := RemoveRoot(i);
      outcome := FailAfterRollback(i);
    }

    /** Renames target `i` into its private directory and hashes it again there. */
    method MoveAndCheck(i: nat) returns (outcome: Outcome)
      requires Valid() && i < |targets| && held == Indexes(i)
      requires BackupRoot(i) in fs && BackupRoot(i) !in baseline
      modifies `fs, `baseline, `intruders, `held, `history, `undisturbed
      ensures Valid()
      ensures outcome.Completed? || outcome.Failed? || outcome.RollbackIncomplete?
      ensures outcome.Completed? ==>
                && held == Indexes(i + 1) && At(baseline, Original(i)) == Some(Previewed(targets[i]))
                && baseline == old(baseline)
                && forall j: nat :: At(fs, BackupRoot(j)) == At(old(fs), BackupRoot(j))
      ensures outcome.Failed? ==> held == {}
      ensures undisturbed ==> old(undisturbed) && baseline == old(baseline) && !outcome.RollbackIncomplete?
      ensures undisturbed && outcome.Failed? ==> At(baseline, Original(i)) != Some(Previewed(targets[i]))
    {
      assert ConservedAt(Now(), Original(i));
      var renamed := RenameToBackup(i);
      if !renamed {
        outcome := AbandonRoot(i);
        return;
      }
      assert held == Indexes(i + 1);
      var asPreviewed := StagedAsPreviewed(i);
      if asPreviewed {
        outcome := Completed;
      } else {
        outcome := FailAfterRollback(i + 1);
      }
    }

    /** A private directory that already exists is left alone and not used. */
    method PrepareRoot(i: nat) returns (ok: bool)
      requires Valid() && i !in held
      modifies `fs, `history, `undisturbed
      ensures Valid()
      ensures ok ==> At(fs, BackupRoot(i)) == Some(PrivateDir) && At(baseline, BackupRoot(i)) == None
      ensures forall p :: p != BackupRoot(i) ==> At(fs, p) == At(old(fs), p)
      ensures undisturbed ==> old(undisturbed) && ok == (BackupRoot(i) !in old(fs))
    {
      var rootExists := Lookup(BackupRoot(i));
      if rootExists == Some(true) {
        return false;
      }
      ok := CreatePrivateRoot(i);
    }

    /** Stages target `i` in a new private directory. */
    method StageOne(i: nat) returns (outcome: Outcome)
      requires Valid() && i < |targets| && held == Indexes(i)
      modifies `fs, `baseline, `intruders, `held, `history, `undisturbed
      ensures Valid()
      ensures outcome.Completed? || outcome.Failed? || outcome.RollbackIncomplete?
      ensures outcome.Completed? ==>
                && held == Indexes(i + 1) && At(baseline, Original(i)) == Some(Previewed(targets[i]))
                && HeldPartsSame(Indexes(i), baseline, old(baseline))
                && (forall j: nat :: j != i ==> At(fs, BackupRoot(j)) == At(old(fs), BackupRoot(j)))
                && PrivatePartsSame(baseline, old(baseline))
      ensures outcome.Failed? ==> held == {}
      ensures undisturbed ==> old(undisturbed) && baseline == old(baseline) && !outcome.RollbackIncomplete?
      ensures undisturbed && outcome.Failed? ==>
                BackupRoot(i) in old(fs) || At(baseline, Original(i)) != Some(Previewed(targets[i]))
    {
      OutsideEdits();
      var prepared := PrepareRoot(i);
      if prepared {
        OutsideEdits();
        assert At(fs, BackupRoot(i)) == Some(PrivateDir) && At(baseline, BackupRoot(i)) == None;
        outcome := MoveAndCheck(i);
      } else {
        outcome := FailAfterRollback(i);
      }
    }

    method StageNext(i: nat) returns (outcome: Outcome)
      requires Valid() && i < |targets| && held == Indexes(i) && StagedUpTo(i, targets, fs, baseline)
      modifies `fs, `baseline, `intruders, `held, `history, `undisturbed
      ensures Valid()
      ensures outcome.Completed? || outcome.Failed? || outcome.RollbackIncomplete?
      ensures outcome.Completed? ==> held == Indexes(i + 1) && StagedUpTo(i + 1, targets, fs, baseline)
      ensures outcome.Failed? ==> held == {}
      ensures undisturbed ==> old(undisturbed) && baseline == old(baseline) && !outcome.RollbackIncomplete?
      ensures undisturbed && outcome.Failed? ==> !Removable(targets, preserved, baseline)
    {
      ghost var before := Now();
      outcome := StageOne(i);
      if outcome.Completed? {
        NextStaged(i, targets, before.fs, before.baseline, fs, baseline);
      }
    }

    method StageAll() returns (outcome: Outcome)
      requires Valid() && held == {}
      requires forall i: nat :: At(fs, BackupRoot(i)) == At(baseline, BackupRoot(i))
      modifies `fs, `baseline, `intruders, `held, `history, `undisturbed
      ensures Valid()
      ensures outcome.Completed? || outcome.Failed? || outcome.RollbackIncomplete?
      ensures outcome.Completed? ==> held == Indexes(|targets|) && AllPreviewed(targets, baseline)
      ensures outcome.Completed? ==>
                forall i: nat :: i >= |targets| ==> At(fs, BackupRoot(i)) == At(baseline, BackupRoot(i))
      ensures outcome.Failed? ==> held == {}
      ensures undisturbed ==> old(undisturbed) && baseline == old(baseline) && !outcome.RollbackIncomplete?
      ensures undisturbed && outcome.Failed? ==> !Removable(targets, preserved, baseline)
    {
      for i := 0 to |targets|
        invariant Valid() && held == Indexes(i)
        invariant StagedUpTo(i, targets, fs, baseline)
        invariant undisturbed ==> old(undisturbed) && baseline == old(baseline)
      {
        outcome := StageNext(i);
        if !outcome.Completed? {
          return;
        }
      }
      outcome := Completed;
    }

    /** `symlink_metadata(..).is_ok()`: a failing call counts as a missing path. Others may act before it. */
    method SeenAt(p: Path) returns (seen: bool)
      requires Valid()
      modifies `fs, `baseline, `intruders, `history, `undisturbed
      ensures Valid()
      ensures SameParts(old(Now()), Now())
      ensures Looked(history, p, seen)
      ensures forall q, s :: Looked(old(history), q, s) ==> Looked(history, q, s)
      ensures undisturbed ==> old(undisturbed) && fs == old(fs) && baseline == old(baseline) && seen == (p in fs)
    {
      OutsideEdits();
      var found := Lookup(p);
      return found == Some(true);
    }

    method TargetSeen(i: nat) returns (seen: bool)
      requires Valid() && i in held
      modifies `fs, `baseline, `intruders, `history, `undisturbed
      ensures Valid()
      ensures SameParts(old(Now()), Now())
      ensures Looked(history, Original(i), seen)
      ensures forall q, s :: Looked(old(history), q, s) ==> Looked(history, q, s)
      ensures undisturbed ==> old(undisturbed) && fs == old(fs) && baseline == old(baseline) && !seen
    {
      HeldIsGone(Now(), i);
      seen := SeenAt(Original(i));
    }

    /** Looks for the targets at their original paths. */
    method TargetsGone() returns (allGone: bool)
      requires Valid() && held == Indexes(|targets|)
      modifies `fs, `baseline, `intruders, `history, `undisturbed
      ensures Valid()
      ensures SameParts(old(Now()), Now())
      ensures allGone ==> GoneUpTo(|targets|, history)
      ensures undisturbed ==> old(undisturbed) && fs == old(fs) && baseline == old(baseline) && allGone
    {
      allGone := true;
      for i := 0 to |targets|
        invariant Valid()
        invariant SameParts(old(Now()), Now())
        invariant allGone ==> GoneUpTo(i, history)
        invariant undisturbed ==> old(undisturbed) && fs == old(fs) && baseline == old(baseline) && allGone
      {
        ghost var before, earlier := Now(), history;
        var seen := TargetSeen(i);
        allGone := allGone && !seen;
        NextGone(i, earlier, history);
        SamePartsTransitive(old(Now()), before, Now());
      }
    }

    /** Looks for the preserved paths. */
    method PreservedThere() returns (allThere: bool)
      requires Valid()
      modifies `fs, `baseline, `intruders, `history, `undisturbed
      ensures Valid()
      ensures SameParts(old(Now()), Now())
      ensures allThere ==> forall k :: 0 <= k < |preserved| ==> Looked(history, preserved[k], true)
      ensures forall q, s :: Looked(old(history), q, s) ==> Looked(history, q, s)
      ensures undisturbed ==> old(undisturbed) && fs == old(fs) && baseline == old(baseline)
      ensures undisturbed ==> (allThere <==> forall k :: 0 <= k < |preserved| ==> preserved[k] in fs)
    {
      allThere := true;
      for k := 0 to |preserved|
        invariant Valid()
        invariant SameParts(old(Now()), Now())
        invariant allThere ==> forall j :: 0 <= j < k ==> Looked(history, preserved[j], true)
        invariant forall q, s :: Looked(old(history), q, s) ==> Looked(history, q, s)
        invariant undisturbed ==> old(undisturbed) && fs == old(fs) && baseline == old(baseline)
        invariant undisturbed ==> (allThere <==> forall j :: 0 <= j < k ==> preserved[j] in fs)
      {
        ghost var before := Now();
        var seen := SeenAt(preserved[k]);
        allThere := allThere && seen;
        SamePartsTransitive(old(Now()), before, Now());
      }
    }

    /**
      The check between staging and deleting: the rescan succeeded, no target is seen at its
      original path, every preserved path is, and the catalog lists no selected instance as present.
     */
    method VerifyRemoved(scanOk: bool, stillInstalled: bool) returns (ok: bool)
      requires Valid() && held == Indexes(|targets|)
      modifies `fs, `baseline, `intruders, `history, `undisturbed
      ensures Valid()
      ensures SameParts(old(Now()), Now())
      ensures ok ==> scanOk && !stillInstalled && Verified(targets, preserved, history)
      ensures undisturbed ==> old(undisturbed) && fs == old(fs) && baseline == old(baseline)
      ensures undisturbed && scanOk && !stillInstalled ==>
                (ok <==> forall k :: 0 <= k < |preserved| ==> preserved[k] in fs)
    {
      if !scanOk {
        return false;
      }
      var allGone := TargetsGone();
      if !allGone {
        return false;
      }
      var allThere := PreservedThere();
      return allThere && !stillInstalled;
    }

    /** Other programs at work while staged entries are deleted. */
    method EditsWhileDeleting()
      requires Recorded() && DeletionAllowed(targets, Now()) && Cleared()
      modifies `fs, `baseline, `intruders, `history, `undisturbed
      ensures Recorded() && DeletionAllowed(targets, Now()) && Cleared()
      ensures PrivatePartsSame(fs, old(fs)) && PrivatePartsSame(baseline, old(baseline))
      ensures Began(old(history), history)
      ensures undisturbed ==> old(undisturbed) && fs == old(fs) && baseline == old(baseline)
    {
      var edits: nat :| true;
      for k := 0 to edits
        invariant Recorded() && DeletionAllowed(targets, Now()) && Cleared()
        invariant PrivatePartsSame(fs, old(fs)) && PrivatePartsSame(baseline, old(baseline))
        invariant Began(old(history), history)
        invariant undisturbed ==> old(undisturbed) && fs == old(fs) && baseline == old(baseline)
      {
        EditWhileDeleting();
      }
    }

    method EditWhileDeleting()
      requires Recorded() && DeletionAllowed(targets, Now()) && Cleared()
      modifies `fs, `baseline, `intruders, `history, `undisturbed
      ensures Recorded() && DeletionAllowed(targets, Now()) && Cleared()
      ensures PrivatePartsSame(fs, old(fs)) && PrivatePartsSame(baseline, old(baseline))
      ensures history == old(history) || (history.Then? && history.earlier == old(history))
      ensures undisturbed ==> old(undisturbed) && fs == old(fs) && baseline == old(baseline)
    {
      var p: Path := *;
      var content: Option<Node> := *;
      if p.Original? || p.Elsewhere? {
        ghost var w := Edited(Now(), p, content);
        LateEditAllowed(targets, Now(), p, content);
        EditKeepsParts(Now(), p, content);
        fs := Put(fs, p, content);
        baseline, intruders, undisturbed := w.baseline, w.intruders, false;
        assert Now() == w;
        history := Then(history, Edit(p, content), true, Now());
      }
    }

    /** Deletes one staged entry; deleting a directory may fail half way and leave a damaged one. */
    method DeleteEntry(i: nat) returns (ok: bool)
      requires Recorded() && DeletionAllowed(targets, Now()) && Cleared() && i < |targets|
      modifies `fs, `history, `undisturbed
      ensures Recorded() && DeletionAllowed(targets, Now()) && Cleared()
      ensures history.Then? && history.earlier == old(history)
      ensures forall p :: p != Backup(i) ==> At(fs, p) == At(old(fs), p)
      ensures ok ==> Backup(i) !in fs
      ensures undisturbed ==> old(undisturbed) && ok
    {
      ghost var before := Now();
      var remains: Option<Node> := None;
      var failed := Fault();
      if failed {
        remains := At(fs, Backup(i));
        match targets[i].kind
        case Symlink =>
          failed := Fault();
          remains := if failed then remains else None;
        case Directory =>
          remains := *;
      }
      PrivateChangeAllowed(targets, Now(), Backup(i), remains);
      fs := Put(fs, Backup(i), remains);
      history := Then(history, Set(Backup(i), remains), true, Now());
      return !failed;
    }

    method DeleteRoot(i: nat) returns (ok: bool)
      requires Recorded() && DeletionAllowed(targets, Now()) && Cleared() && i < |targets|
      requires Backup(i) !in fs
      modifies `fs, `history, `undisturbed
      ensures Recorded() && DeletionAllowed(targets, Now()) && Cleared()
      ensures history == old(history) || (history.Then? && history.earlier == old(history))
      ensures forall p :: p != BackupRoot(i) ==> At(fs, p) == At(old(fs), p)
      ensures ok ==> BackupRoot(i) !in fs
      ensures undisturbed ==> old(undisturbed) && ok == (BackupRoot(i) in old(fs))
    {
      var failed := Fault();
      if failed || BackupRoot(i) !in fs {
        return false;
      }
      PrivateChangeAllowed(targets, Now(), BackupRoot(i), None);
      fs := Put(fs, BackupRoot(i), None);
      history := Then(history, Set(BackupRoot(i), None), true, Now());
      return true;
    }

    method CommitOne(i: nat) returns (failures: nat)
      requires Recorded() && DeletionAllowed(targets, Now()) && Cleared() && i < |targets|
      modifies `fs, `baseline, `intruders, `history, `undisturbed
      ensures Recorded() && DeletionAllowed(targets, Now()) && Cleared() && Began(old(history), history)
      ensures PrivatePartsSameBut(i, fs, old(fs)) && PrivatePartsSame(baseline, old(baseline))
      ensures failures == 0 ==> At(fs, Backup(i)) == None && At(fs, BackupRoot(i)) == None
      ensures undisturbed ==>
              old(undisturbed) && (BackupRoot(i) in old(fs) ==> failures == 0) && baseline == old(baseline)
    {
      EditsWhileDeleting();
      assert At(fs, BackupRoot(i)) == At(old(fs), BackupRoot(i));
      ghost var before := history;
      var removed := DeleteEntry(i);
      BeganThen(old(history), before, history);
      if !removed {
        return 1;
      }
      ghost var between := history;
      assert At(fs, BackupRoot(i)) == At(old(fs), BackupRoot(i));
      var rootRemoved := DeleteRoot(i);
      BeganThen(old(history), between, history);
      return if rootRemoved then 0 else 1;
    }

    method CommitStaged() returns (ok: bool)
      requires Recorded() && DeletionAllowed(targets, Now()) && Cleared()
      requires forall i: nat :: i < |targets| ==> BackupRoot(i) in fs
      modifies `fs, `baseline, `intruders, `history, `undisturbed
      ensures Recorded() && DeletionAllowed(targets, Now()) && Began(old(history), history)
      ensures PrivatePartsSameFrom(|targets|, fs, old(fs)) && PrivatePartsSame(baseline, old(baseline))
      ensures ok ==> forall i: nat :: i < |targets| ==> At(fs, Backup(i)) == None && At(fs, BackupRoot(i)) == None
      ensures undisturbed ==> old(undisturbed) && ok && baseline == old(baseline)
    {
      var failureCount := 0;
      for i := 0 to |targets|
        invariant Recorded() && DeletionAllowed(targets, Now()) && Cleared() && Began(old(history), history)
        invariant PrivatePartsSameFrom(i, fs, old(fs)) && PrivatePartsSame(baseline, old(baseline))
        invariant failureCount == 0 ==> DeletedUpTo(i, fs)
        invariant undisturbed ==> old(undisturbed) && failureCount == 0 && baseline == old(baseline)
      {
        ghost var before, tree := history, fs;
        assert At(fs, BackupRoot(i)) == At(old(fs), BackupRoot(i));
        var failures := CommitOne(i);
        BeganTransitive(old(history), before, history);
        NextDeleted(i, tree, fs);
        failureCount := failureCount + failures;
      }
      ghost var before := history;
      EditsWhileDeleting();
      BeganTransitive(old(history), before, history);
      return failureCount == 0;
    }

    /** Re-checks every target against its preview before anything is moved. */
    method StillPreviewed() returns (ok: bool)
      requires Valid() && held == {}
      modifies `fs, `baseline, `intruders, `history, `undisturbed
      ensures Valid()
      ensures PrivatePartsSame(fs, old(fs)) && PrivatePartsSame(baseline, old(baseline))
      ensures undisturbed ==> old(undisturbed) && fs == old(fs) && baseline == old(baseline)
      ensures undisturbed ==> (ok <==> AllPreviewed(targets, baseline))
    {
      for i := 0 to |targets|
        invariant Valid()
        invariant PrivatePartsSame(fs, old(fs)) && PrivatePartsSame(baseline, old(baseline))
        invariant undisturbed ==> old(undisturbed) && fs == old(fs) && baseline == old(baseline)
        invariant undisturbed ==> forall j: nat :: j < i ==> At(baseline, Original(j)) == Some(Previewed(targets[j]))
      {
        OutsideEdits();
        assert ConservedAt(Now(), Original(i));
        var entry := ReadEntry(Original(i));
        if entry != Some(targets[i]) {
          return false;
        }
      }
      return true;
    }

    /** Rolls everything back unless the removal is confirmed. */
    method ConfirmOrRollback(scanOk: bool, stillInstalled: bool) returns (outcome: Outcome)
      requires Valid() && held == Indexes(|targets|) && AllPreviewed(targets, baseline)
      modifies `fs, `baseline, `intruders, `held, `history, `undisturbed
      ensures Valid()
      ensures outcome.Completed? || outcome.Failed? || outcome.RollbackIncomplete?
      ensures outcome.Completed? ==>
                && DeletionAllowed(targets, Now()) && Verified(targets, preserved, history)
                && PrivatePartsSame(fs, old(fs)) && PrivatePartsSame(baseline, old(baseline))
      ensures outcome.Failed? ==> held == {}
      ensures outcome.RollbackIncomplete? ==> !undisturbed
      ensures outcome.Completed? ==> scanOk && !stillInstalled
      ensures undisturbed ==> old(undisturbed) && baseline == old(baseline)
      ensures undisturbed ==>
                (outcome.Completed? <==> Removable(targets, preserved, baseline) && scanOk && !stillInstalled)
    {
      ghost var before := Now();
      StagedIsRemovable(targets, preserved, before);
      var verified := VerifyRemoved(scanOk, stillInstalled);
      StagedMayBeDeleted(targets, before, Now());
      if verified {
        outcome := Completed;
      } else {
        outcome := FailAfterRollback(|targets|);
      }
    }

    /** Everything up to the point of no return: re-check, stage, verify, and roll back on failure. */
    method ApplyReversibly(scanOk: bool, stillInstalled: bool) returns (outcome: Outcome)
      requires Valid() && held == {} && PrivatePartsSame(fs, baseline)
      modifies `fs, `baseline, `intruders, `held, `history, `undisturbed
      ensures Valid()
      ensures outcome.Completed? || outcome.Failed? || outcome.RollbackIncomplete?
      ensures outcome.Completed? ==>
                && DeletionAllowed(targets, Now()) && Verified(targets, preserved, history)
                && (forall i: nat :: i >= |targets| ==> At(fs, BackupRoot(i)) == At(baseline, BackupRoot(i)))
      ensures outcome.Failed? ==> held == {}
      ensures outcome.RollbackIncomplete? ==> !undisturbed
      ensures outcome.Completed? ==> scanOk && !stillInstalled
      ensures undisturbed ==> old(undisturbed) && baseline == old(baseline)
      ensures undisturbed ==>
                (outcome.Completed? <==> Removable(targets, preserved, baseline) && scanOk && !stillInstalled)
    {
      var previewed := StillPreviewed();
      if previewed {
        outcome := StageAll();
        if outcome.Completed? {
          outcome := ConfirmOrRollback(scanOk, stillInstalled);
        }
      } else {
        outcome := Failed;
      }
    }

    /**
      The whole removal. `scanOk` and `stillInstalled` are what the rescan and the catalog will
      say. The removal ends in one of four ways. The recorded history shows that no target was
      lost on the way and what else was, and that nothing was deleted before the stage `checked`,
      at which every target was staged and every preserved path had been seen.
     */
    method Apply(scanOk: bool, stillInstalled: bool) returns (outcome: Outcome, ghost checked: History)
      requires Valid() && held == {} && fs == baseline && history == Start(fs)
      modifies this
      ensures outcome.Completed? ==>
                && fs == WithoutTargets(targets, baseline) + intruders
                && (forall p :: p in intruders ==> IsTarget(targets, p))
      ensures outcome.Completed? || outcome.CleanupIncomplete? ==>
                && scanOk && !stillInstalled
                && Began(checked, history) && NothingDeleted(checked) && Verified(targets, preserved, checked)
      ensures outcome.Failed? ==> Restored(fs, baseline)
      ensures outcome.RollbackIncomplete? ==> Conserved(Now()) && !undisturbed
      ensures outcome.CleanupIncomplete? ==> DeletionAllowed(targets, Now()) && !undisturbed
      ensures Recorded()
      ensures outcome.Failed? || outcome.RollbackIncomplete? ==> NothingDeleted(history)
      ensures undisturbed ==> old(undisturbed) && baseline == old(baseline) && intruders == map[]
      ensures undisturbed ==>
                (outcome.Completed? <==> Removable(targets, preserved, baseline) && scanOk && !stillInstalled)
    {
      outcome := ApplyReversibly(scanOk, stillInstalled);
      checked := history;
      if outcome.Failed? {
        NothingHeldIsRestored(Now());
      }
      if !outcome.Completed? {
        return;
      }
      ghost var staged := Now();
      forall i: nat | i < |targets| ensures BackupRoot(i) in fs {
        assert ConservedAt(Now(), BackupRoot(i));
      }
      var ok := CommitStaged();
      if !ok {
        outcome := CleanupIncomplete;
        return;
      }
      OnlyTargetsGone(targets, staged, Now());
    }
  }

  /** Deleting all staged entries leaves the tree without the targets, and what others have put in their places. */
  lemma OnlyTargetsGone(targets: seq<Target>, staged: View, v: View)
    requires Conserved(staged) && staged.held == Indexes(|targets|)
    requires forall i: nat :: i >= |targets| ==> At(staged.fs, BackupRoot(i)) == At(staged.baseline, BackupRoot(i))
    requires DeletionAllowed(targets, v) && PrivatePartsSame(v.baseline, staged.baseline)
    requires PrivatePartsSameFrom(|targets|, v.fs, staged.fs) && DeletedUpTo(|targets|, v.fs)
    ensures v.fs == WithoutTargets(targets, v.baseline) + v.intruders
    ensures forall p :: p in v.intruders ==> IsTarget(targets, p)
  {
    forall p ensures At(v.fs, p) == At(WithoutTargets(targets, v.baseline) + v.intruders, p) {
      assert ConservedAt(staged, p);
      if p.Original? || p.Elsewhere? {
        assert ConservedAt(v, p);
      } else {
        PrivatePartsGone(targets, staged, v, p.index);
      }
    }
    SameEverywhere(v.fs, WithoutTargets(targets, v.baseline) + v.intruders);
  }

  lemma PrivatePartsGone(targets: seq<Target>, staged: View, v: View, i: nat)
    requires Conserved(staged) && staged.held == Indexes(|targets|)
    requires forall j: nat :: j >= |targets| ==> At(staged.fs, BackupRoot(j)) == At(staged.baseline, BackupRoot(j))
    requires PrivatePartsSame(v.baseline, staged.baseline)
    requires PrivatePartsSameFrom(|targets|, v.fs, staged.fs) && DeletedUpTo(|targets|, v.fs)
    ensures At(v.fs, Backup(i)) == At(v.baseline, Backup(i)) && At(v.fs, BackupRoot(i)) == At(v.baseline, BackupRoot(i))
  {
    assert ConservedAt(staged, Backup(i)) && ConservedAt(staged, BackupRoot(i));
  }
}
