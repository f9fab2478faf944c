/** Revisions and rollback tokens of config files (crates/commands/src/config_consistency.rs). */
module ConfigRevision {
  import opened Common

  const NUL: char := '\0'

  datatype ConfigFile = Missing | Present(text: string)
  {
    /** A missing file reads as empty text. */
    function Content(): string {
      if Present? then text else ""
    }
  }

  datatype Snapshot = Snapshot(id: string, target: string, projectRoot: Option<string>, content: string)

  datatype ConfigError = ConfigConflict(expected: string, actual: string) | StalePreviewToken

  function Revision(hash: string -> string, file: ConfigFile): string {
    "sha256:" + hash(if file.Present? then "present" + [NUL] + file.text else "missing" + [NUL])
  }

  function EnsureExpectedRevision(
    hash: string -> string, expected: string, actual: ConfigFile): Result<(), ConfigError>
  {
    if expected == Revision(hash, actual) then Ok(()) else Err(ConfigConflict(expected, Revision(hash, actual)))
  }

  function TokenText(hash: string -> string, snapshot: Snapshot, currentRevision: string): string {
    "snapshot-rollback-preview" + [NUL] + (snapshot.id + [NUL] + (snapshot.target + [NUL] +
    (snapshot.projectRoot.GetOr("") + [NUL] + (hash(snapshot.content) + [NUL] + currentRevision))))
  }

  function RollbackToken(hash: string -> string, snapshot: Snapshot, currentRevision: string): string {
    "sha256:" + hash(TokenText(hash, snapshot, currentRevision))
  }

  function EnsureRollbackToken(hash: string -> string, provided: string, snapshot: Snapshot, currentRevision: string)
    : Result<(), ConfigError>
  {
    if provided == RollbackToken(hash, snapshot, currentRevision) then Ok(()) else Err(StalePreviewToken)
  }

  /** Identifiers and paths contain no NUL. */
  predicate NulFree(snapshot: Snapshot) {
    NUL !in snapshot.id && NUL !in snapshot.target && NUL !in snapshot.projectRoot.GetOr("")
  }

  /** A revision identifies the exact state of a file; a missing and an empty file differ. */
  lemma RevisionIdentifiesState(hash: string -> string, a: ConfigFile, b: ConfigFile)
    requires CollisionFree(hash)
    ensures Revision(hash, a) == Revision(hash, b) <==> a == b
  {
    if Revision(hash, a) == Revision(hash, b) {
      var x := if a.Present? then "present" + [NUL] + a.text else "missing" + [NUL];
      var y := if b.Present? then "present" + [NUL] + b.text else "missing" + [NUL];
      assert hash(x) == Revision(hash, a)[7..] == Revision(hash, b)[7..] == hash(y);
      assert x == y && x[0] == y[0];
      if a.Present? {
        assert a.text == x[8..] && b.text == y[8..];
      }
    }
  }

  /** A rollback token pins down the snapshot, its content and the file's state at preview time. */
  lemma TokenIdentifiesPreview(hash: string -> string, s: Snapshot, t: Snapshot, rs: string, rt: string)
    requires IdealHash(hash) && NulFree(s) && NulFree(t)
    ensures RollbackToken(hash, s, rs) == RollbackToken(hash, t, rt) <==>
            && s.id == t.id && s.target == t.target && s.content == t.content && rs == rt
            && s.projectRoot.GetOr("") == t.projectRoot.GetOr("")
  {
    if RollbackToken(hash, s, rs) == RollbackToken(hash, t, rt) {
      var x, y := TokenText(hash, s, rs), TokenText(hash, t, rt);
      assert hash(x) == RollbackToken(hash, s, rs)[7..] == RollbackToken(hash, t, rt)[7..] == hash(y);
      var x1, y1 := x[26..], y[26..];
      var x5, y5 := hash(s.content) + [NUL] + rs, hash(t.content) + [NUL] + rt;
      var x4, y4 := s.projectRoot.GetOr("") + [NUL] + x5, t.projectRoot.GetOr("") + [NUL] + y5;
      var x3, y3 := s.target + [NUL] + x4, t.target + [NUL] + y4;
      assert x1 == s.id + [NUL] + x3 && y1 == t.id + [NUL] + y3;
      FieldsDetermined(s.id, x3, t.id, y3, NUL);
      FieldsDetermined(s.target, x4, t.target, y4, NUL);
      FieldsDetermined(s.projectRoot.GetOr(""), x5, t.projectRoot.GetOr(""), y5, NUL);
      FieldsDetermined(hash(s.content), rs, hash(t.content), rt, NUL);
    }
  }
}
