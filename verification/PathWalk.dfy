/**
 * Lexical normal forms and the walk that guards config reads
 * (crates/commands/src/lib.rs 4022-4040; crates/commands/src/config_support.rs 159-268).
 */
module PathWalk {
  import opened Common

  /** The components of a path. A root or a dot is only listed at the start. */
  datatype Component = Root | Cur | Parent | Name(text: string)

  type Path = seq<Component>

  ghost predicate WellFormed(p: Path) {
    forall i :: 0 <= i < |p| && (p[i].Root? || p[i].Cur?) ==> i == 0
  }

  /**
    `PathBuf::pop`: fails on the empty path and at the root, and otherwise drops the last component, whatever it is.
   */
  function Pop(p: Path): Option<Path> {
    if p == [] || p[|p| - 1].Root? then None else Some(p[..|p| - 1])
  }

  function Step(n: Path, c: Component): Path {
    match c
    case Cur => n
    case Parent => (match Pop(n) case Some(m) => m case None => n + [Parent])
    case _ => n + [c]
  }

  function Norm(p: Path): Path {
    if p == [] then [] else Step(Norm(p[..|p| - 1]), p[|p| - 1])
  }

  method NormalizePathLexically(p: Path) returns (n: Path)
    ensures n == Norm(p)
  {
    n := [];
    for i := 0 to |p|
      invariant n == Norm(p[..i])
    {
      assert p[..i + 1][..i] == p[..i];
      match p[i] {
        case Cur =>
        case Parent =>
          var popped := Pop(n);
          if popped.Some? {
            n := popped.value;
          } else {
            n := n + [Parent];
          }
        case _ => n := n + [p[i]];
      }
    }
    assert p[..|p|] == p;
  }

  // ----- normal forms -----------------------------------------------------------------------

  /** An optional root, then at most one parent, then names. */
  ghost predicate IsNormal(n: Path) {
    && WellFormed(n) && (forall i :: 0 <= i < |n| ==> !n[i].Cur?)
    && (forall i :: 0 <= i < |n| && n[i].Parent? ==> i == 0 || (i == 1 && n[0].Root?))
  }

  lemma {:induction false} NormIsNormal(p: Path)
    requires WellFormed(p)
    ensures IsNormal(Norm(p)) && (Norm(p) != [] && Norm(p)[0].Root? <==> p != [] && p[0].Root?)
  {
    if p != [] {
      NormIsNormal(p[..|p| - 1]);
    }
  }

  lemma {:induction false} NormalIsFixed(n: Path)
    requires IsNormal(n)
    ensures Norm(n) == n
  {
    if n != [] {
      NormalIsFixed(n[..|n| - 1]);
      assert n == n[..|n| - 1] + [n[|n| - 1]];
    }
  }

  /**
    The normal forms are exactly the paths that normalisation leaves alone, so normalising twice is normalising
    once.
   */
  lemma NormalForms(p: Path)
    requires WellFormed(p)
    ensures Norm(p) == p <==> IsNormal(p)
    ensures Norm(Norm(p)) == Norm(p)
  {
    NormIsNormal(p);
    NormalIsFixed(Norm(p));
    if IsNormal(p) {
      NormalIsFixed(p);
    }
  }

  lemma NormSnoc(p: Path, c: Component)
    ensures Norm(p + [c]) == Step(Norm(p), c)
  {
    assert (p + [c])[..|p|] == p;
  }

  /** Above the root a parent is kept, and the next one removes it again; a parent path likewise. */
  lemma ParentsAboveTheRoot()
    ensures Norm([Root, Parent]) == [Root, Parent] && Norm([Root, Parent, Parent]) == [Root]
    ensures Norm([Parent]) == [Parent] && Norm([Parent, Parent]) == []
  {
    NormSnoc([], Root);
    NormSnoc([Root], Parent);
    NormSnoc([Root, Parent], Parent);
    NormSnoc([], Parent);
    NormSnoc([Parent], Parent);
  }

  // ----- staying inside ---------------------------------------------------------------------

  /** The names entered and not left again; none if the walk leaves where it began. */
  function Entered(relative: Path): Option<Path> {
    if relative == [] then Some([])
    else
      match Entered(relative[..|relative| - 1])
      case None => None
      case Some(names) =>
        match relative[|relative| - 1]
        case Cur => Some(names)
        case Parent => if names == [] then None else Some(names[..|names| - 1])
        case Root => None
        case Name(_) => Some(names + [relative[|relative| - 1]])
  }

  function Count(p: Path, f: Component -> bool): nat {
    if p == [] then 0 else Count(p[..|p| - 1], f) + if f(p[|p| - 1]) then 1 else 0
  }

  function Depth(p: Path): int {
    Count(p, (c: Component) => c.Name?) - Count(p, (c: Component) => c.Parent?)
  }

  /** A walk stays inside exactly when it meets no root and never goes up more often than down. */
  lemma {:induction false} InsideIsDepth(relative: Path)
    ensures Entered(relative).Some? <==>
            Root !in relative && forall k :: 0 <= k <= |relative| ==> Depth(relative[..k]) >= 0
    ensures Entered(relative).Some? ==> |Entered(relative).value| == Depth(relative)
  {
    if relative == [] {
      assert forall k :: 0 <= k <= |relative| ==> relative[..k] == [];
    } else {
      var shorter, last := relative[..|relative| - 1], relative[|relative| - 1];
      InsideIsDepth(shorter);
      assert relative == shorter + [last] && relative[..|relative|] == relative;
      assert forall k :: 0 <= k <= |shorter| ==> relative[..k] == shorter[..k];
      assert Depth(relative) == Depth(shorter) + if last.Name? then 1 else if last.Parent? then -1 else 0;
    }
  }

  lemma {:induction false} EnteredAreNames(relative: Path)
    requires Entered(relative).Some?
    ensures forall c :: c in Entered(relative).value ==> c.Name?
  {
    if relative != [] {
      EnteredAreNames(relative[..|relative| - 1]);
    }
  }

  lemma {:induction false} EnteredPrefix(relative: Path, k: nat)
    requires Entered(relative).Some? && k <= |relative|
    ensures Entered(relative[..k]).Some?
  {
    if k < |relative| {
      EnteredPrefix(relative[..|relative| - 1], k);
      assert relative[..|relative| - 1][..k] == relative[..k];
    } else {
      assert relative[..k] == relative;
    }
  }

  /** Names are simply appended. */
  lemma {:induction false} NormAppendNames(p: Path, names: Path)
    requires forall c :: c in names ==> c.Name?
    ensures Norm(p + names) == Norm(p) + names
  {
    if names == [] {
      assert p + names == p;
    } else {
      var last := names[|names| - 1];
      NormAppendNames(p, names[..|names| - 1]);
      assert (p + names)[..|p + names| - 1] == p + names[..|names| - 1];
      assert last in names;
    }
  }

  lemma PopName(start: Path, names: Path)
    requires names != [] && forall c :: c in names ==> c.Name?
    ensures Pop(start + names) == Some(start + names[..|names| - 1])
  {
    assert (start + names)[|start + names| - 1] == names[|names| - 1] && names[|names| - 1] in names;
    assert (start + names)[..|start + names| - 1] == start + names[..|names| - 1];
  }

  lemma StepOfWalk(start: Path, names: Path, c: Component)
    requires (forall d :: d in names ==> d.Name?) && !c.Root? && (c.Parent? ==> names != [])
    ensures Step(start + names, c) ==
            start + (if c.Cur? then names else if c.Parent? then names[..|names| - 1] else names + [c])
  {
    if c.Parent? {
      PopName(start, names);
    } else if c.Name? {
      assert start + names + [c] == start + (names + [c]);
    }
  }

  /** As long as a walk stays inside, the normal form of where it is, is that of its start and the names entered. */
  lemma {:induction false} NormOfWalk(root: Path, relative: Path)
    requires Entered(relative).Some?
    ensures Norm(root + relative) == Norm(root) + Entered(relative).value
  {
    if relative == [] {
      assert root + relative == root && Norm(root) + [] == Norm(root);
    } else {
      var shorter, last := relative[..|relative| - 1], relative[|relative| - 1];
      NormOfWalk(root, shorter);
      EnteredAreNames(shorter);
      NormSnoc(root + shorter, last);
      assert root + relative == root + shorter + [last];
      StepOfWalk(Norm(root), Entered(shorter).value, last);
    }
  }

  // ----- the walk ---------------------------------------------------------------------------

  datatype ReadError =
    | UnsupportedScope | NotExpected | NoParent | OutsideRoot
    | NotRooted | Symlink | LeavesRoot | AbsoluteComponent
    | LeftAfterPop | NotValidated

  /** The place entered with component `k`, if it is a name, is not refused as a symbolic link. */
  ghost predicate EntersPlain(root: Path, relative: Path, k: nat, plain: Path -> bool)
    requires k < |relative|
  {
    relative[k].Name? && Entered(relative[..k + 1]).Some? ==> plain(root + Entered(relative[..k + 1]).value)
  }

  ghost predicate EntersNoSymlink(root: Path, relative: Path, plain: Path -> bool) {
    forall k :: 0 <= k < |relative| ==> EntersPlain(root, relative, k, plain)
  }

  ghost predicate Acceptable(path: Path, root: Path, plain: Path -> bool) {
    && root <= path && plain(Norm(root))
    && Entered(path[|root|..]).Some? && EntersNoSymlink(root, path[|root|..], plain)
  }

  /** One component: the new cursor or the error. */
  function Advance(
    root: Path, normalizedRoot: Path, cursor: Path, c: Component, plain: Path -> bool): Result<Path, ReadError>
  {
    match c
    case Cur => Ok(cursor)
    case Parent =>
      if Norm(cursor) == normalizedRoot then Err(LeavesRoot)
      else if Pop(cursor).None? || !(normalizedRoot <= Norm(Pop(cursor).value)) then Err(LeftAfterPop)
      else Ok(Pop(cursor).value)
    case Name(_) => if plain(cursor + [c]) then Ok(cursor + [c]) else Err(Symlink)
    case Root => Err(AbsoluteComponent)
  }

  /** Inside the root the second guard on a parent never fires, and a step fails only when it leaves or meets a link. */
  lemma AdvanceKeepsEntered(root: Path, relative: Path, k: nat, plain: Path -> bool)
    requires k < |relative| && Entered(relative[..k]).Some?
    ensures
      var cursor, next := root + Entered(relative[..k]).value, Entered(relative[..k + 1]);
      Advance(root, Norm(root), cursor, relative[k], plain) ==
      if relative[k].Root? then Err(AbsoluteComponent)
      else if next.None? then Err(LeavesRoot)
      else if relative[k].Name? && !plain(root + next.value) then Err(Symlink)
      else Ok(root + next.value)
  {
    var names := Entered(relative[..k]).value;
    assert relative[..k + 1][..k] == relative[..k];
    EnteredAreNames(relative[..k]);
    NormAppendNames(root, names);
    if relative[k].Parent? && names != [] {
      PopName(root, names);
      NormAppendNames(root, names[..|names| - 1]);
    } else if relative[k].Name? {
      assert root + names + [relative[k]] == root + (names + [relative[k]]);
    }
  }

  /** The component walk: what it accepts, and that its later guards never decide. */
  method ValidateConfigReadPathComponents(path: Path, root: Path, normalizedPath: Path, plain: Path -> bool)
    returns (r: Result<Path, ReadError>)
    requires normalizedPath == Norm(path)
    ensures r.Ok? <==> Acceptable(path, root, plain)
    ensures r.Ok? ==> Norm(r.value) == normalizedPath
    ensures r != Err(LeftAfterPop) && r != Err(NotValidated)
    ensures r == Err(NotRooted) <==> !(root <= path)
  {
    if !(root <= path) {
      return Err(NotRooted);
    }
    var normalizedRoot := NormalizePathLexically(root);
    if !plain(normalizedRoot) {
      return Err(Symlink);
    }
    var walked := WalkComponents(root, path[|root|..], normalizedRoot, plain);
    if walked.Err? {
      return Err(walked.error);
    }
    CursorIsPath(path, root);
    var normalizedCursor := NormalizePathLexically(walked.value);
    if normalizedCursor != normalizedPath {
      return Err(NotValidated);
    }
    r := Ok(walked.value);
  }

  method WalkComponents(
    root: Path, relative: Path, normalizedRoot: Path, plain: Path -> bool) returns (r: Result<Path, ReadError>)
    requires normalizedRoot == Norm(root)
    ensures r.Ok? <==> Entered(relative).Some? && EntersNoSymlink(root, relative, plain)
    ensures r.Ok? ==> r.value == root + Entered(relative).value
    ensures r.Err? ==> r.error in {LeavesRoot, Symlink, AbsoluteComponent}
  {
    var cursor := root;
    assert root == root + [];
    for k := 0 to |relative|
      invariant Entered(relative[..k]).Some? && cursor == root + Entered(relative[..k]).value
      invariant forall j :: 0 <= j < k ==> EntersPlain(root, relative, j, plain)
    {
      AdvanceKeepsEntered(root, relative, k, plain);
      var next := Advance(root, normalizedRoot, cursor, relative[k], plain);
      if next.Err? {
        if Entered(relative).Some? {
          EnteredPrefix(relative, k + 1);
          assert !EntersPlain(root, relative, k, plain);
        }
        return Err(next.error);
      }
      cursor := next.value;
    }
    assert relative[..|relative|] == relative;
    r := Ok(cursor);
  }

  lemma CursorIsPath(path: Path, root: Path)
    requires root <= path && Entered(path[|root|..]).Some?
    ensures Norm(root + Entered(path[|root|..]).value) == Norm(path)
  {
    var relative := path[|root|..];
    assert path == root + relative;
    NormOfWalk(root, relative);
    EnteredAreNames(relative);
    NormAppendNames(root, Entered(relative).value);
  }

  /** An accepted walk is never above the root: every prefix of it has a normal form below that of the root. */
  lemma AcceptedStaysBelow(path: Path, root: Path, plain: Path -> bool, k: nat)
    requires Acceptable(path, root, plain) && |root| <= k <= |path|
    ensures Norm(root) <= Norm(path[..k]) && Depth(path[|root|..k]) >= 0
  {
    var relative := path[|root|..];
    var walked := relative[..k - |root|];
    EnteredPrefix(relative, k - |root|);
    assert path[..k] == root + walked;
    assert path[|root|..k] == walked;
    NormOfWalk(root, walked);
    InsideIsDepth(walked);
  }

  // ----- the whole check --------------------------------------------------------------------

  datatype Agent = ClaudeCode | Codex | Opencode | Pi | Hermes | Openclaw

  datatype Scope = AgentGlobal | AgentProject | ToolGlobal

  function AllowedRoot(agent: Agent, scope: Scope, userHome: Path, projectRoot: Option<Path>): Option<Path> {
    match scope
    case AgentGlobal => Some(userHome)
    case AgentProject => if agent.ClaudeCode? || agent.Codex? || agent.Opencode? || agent.Pi? then projectRoot else None
    case ToolGlobal => None
  }

  /** `expected` is the config file of the agent and scope, if it has one. */
  method ValidateConfigReadTarget(
    agent: Agent, scope: Scope, path: Path, expected: Option<Path>, userHome: Path, projectRoot: Option<Path>,
    plain: Path -> bool)
    returns (r: Result<(), ReadError>)
    ensures r.Ok? <==>
            && expected.Some? && Norm(path) == Norm(expected.value)
            && AllowedRoot(agent, scope, userHome, projectRoot).Some?
            && var root := AllowedRoot(agent, scope, userHome, projectRoot).value;
               Norm(root) < Norm(path) && Acceptable(path, root, plain)
    ensures r != Err(LeftAfterPop) && r != Err(NotValidated)
  {
    if expected.None? {
      return Err(UnsupportedScope);
    }
    var normalizedPath := NormalizePathLexically(path);
    var normalizedExpected := NormalizePathLexically(expected.value);
    if normalizedPath != normalizedExpected {
      return Err(NotExpected);
    }
    var root := AllowedRoot(agent, scope, userHome, projectRoot);
    if root.None? {
      return Err(UnsupportedScope);
    }
    var normalizedRoot := NormalizePathLexically(root.value);
    var parent := Pop(normalizedPath);
    AcceptedHasParent(path, root.value, plain);
    if parent.None? {
      return Err(NoParent);
    }
    if !(normalizedRoot <= parent.value) {
      assert !(normalizedRoot < normalizedPath);
      return Err(OutsideRoot);
    }
    assert normalizedRoot < normalizedPath;
    var walked := ValidateConfigReadPathComponents(path, root.value, normalizedPath, plain);
    r := if walked.Ok? then Ok(()) else Err(walked.error);
  }

  /** What is accepted strictly below the root ends in a name. */
  lemma AcceptedHasParent(path: Path, root: Path, plain: Path -> bool)
    ensures Acceptable(path, root, plain) && Norm(root) < Norm(path) ==> Pop(Norm(path)).Some?
  {
    if Acceptable(path, root, plain) && Norm(root) < Norm(path) {
      var relative := path[|root|..];
      assert path == root + relative;
      NormOfWalk(root, relative);
      EnteredAreNames(relative);
      PopName(Norm(root), Entered(relative).value);
    }
  }
}
