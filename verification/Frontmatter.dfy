/**
 * Skill files: a YAML header between `---` lines and a body. Splitting, printing, fingerprints, and the
 * export and reimport of bundles (crates/commands/src/lib.rs 388-390, 1149-1305; crates/adapters/src/shared.rs 3-17).
 */
module Frontmatter {
  import opened Common

  const FENCE := "\n---\n"
  const CRLF_FENCE := "\n---\r\n"

  datatype Parts = Parts(header: string, body: string)

  // ----- occurrences ------------------------------------------------------------------------

  predicate OccursAt(s: string, pattern: string, i: nat) {
    i + |pattern| <= |s| && s[i..i + |pattern|] == pattern
  }

  ghost predicate Contains(s: string, pattern: string) {
    exists i: nat :: OccursAt(s, pattern, i)
  }

  /** The first occurrence of a pattern at or after position `i`. */
  function Find(s: string, pattern: string, i: nat): (r: Option<nat>)
    requires i <= |s|
    ensures r.Some? ==> i <= r.value && OccursAt(s, pattern, r.value)
    ensures r.Some? ==> forall k :: i <= k < r.value ==> !OccursAt(s, pattern, k)
    ensures r.None? ==> forall k: nat :: i <= k ==> !OccursAt(s, pattern, k)
    decreases |s| - i
  {
    if OccursAt(s, pattern, i) then Some(i)
    else if i == |s| then None
    else Find(s, pattern, i + 1)
  }

  /** The text before and after the first occurrence. */
  function SplitOnce(s: string, pattern: string): Option<Parts> {
    match Find(s, pattern, 0)
    case None => None
    case Some(i) => Some(Parts(s[..i], s[i + |pattern|..]))
  }

  function StripSuffix(s: string, suffix: string): Option<string> {
    if EndsWith(s, suffix) then Some(s[..|s| - |suffix|]) else None
  }

  function StripPrefix(s: string, prefix: string): Option<string> {
    if prefix <= s then Some(s[|prefix|..]) else None
  }

  // ----- splitting and printing -------------------------------------------------------------

  /** The splitter of the exporter. */
  function Split(rest: string): Option<Parts> {
    match SplitOnce(rest, FENCE)
    case Some(parts) => Some(parts)
    case None =>
      match SplitOnce(rest, CRLF_FENCE)
      case Some(parts) => Some(parts)
      case None =>
        match StripSuffix(rest, "\n---")
        case Some(header) => Some(Parts(header, ""))
        case None =>
          match StripSuffix(rest, "\r\n---")
          case Some(header) => Some(Parts(header, ""))
          case None => None
  }

  function Print(parts: Parts): string {
    "---\n" + parts.header + "\n---\n" + parts.body
  }

  function Preimage(parts: Parts): string {
    parts.header + "\n---\n" + parts.body
  }

  /** No fence starts inside the header, not even one that the closing dashes complete. */
  ghost predicate Printable(header: string) {
    !Contains(header + "\n---", FENCE)
  }

  /** A printed header and body split back into themselves exactly when the header is printable. */
  lemma PrintedSplitsBack(parts: Parts)
    ensures Split(Preimage(parts)) == Some(parts) <==> Printable(parts.header)
  {
    var h, s := parts.header, Preimage(parts);
    assert OccursAt(s, FENCE, |h|) by {
      assert s[|h|..|h| + 5] == FENCE;
    }
    EarlierFences(parts);
    var i := Find(s, FENCE, 0).value;
    assert i <= |h|;
    if i == |h| {
      assert s[..i] == h && s[i + 5..] == parts.body;
    }
  }

  /** The fences that start before the end of the header are those of the header with the closing dashes. */
  lemma EarlierFences(parts: Parts)
    ensures Contains(parts.header + "\n---", FENCE) <==>
            exists k: nat :: k < |parts.header| && OccursAt(Preimage(parts), FENCE, k)
  {
    var h, s := parts.header, Preimage(parts);
    var t := h + "\n---";
    assert s[..|t|] == t;
    forall k: nat | k < |h| ensures OccursAt(s, FENCE, k) <==> OccursAt(t, FENCE, k) {
      assert s[k..k + 5] == t[k..k + 5];
    }
  }

  lemma HeaderIsClosed(rest: string)
    requires Split(rest).Some?
    ensures Split(rest).value.header + "\n---" <= rest
  {
    var h := Split(rest).value.header;
    LastBranchUnreachable(rest);
    assert rest[..|h|] == h;
    if Find(rest, FENCE, 0).Some? {
      assert rest[|h|..|h| + 5][..4] == rest[|h|..|h| + 4];
    } else if Find(rest, CRLF_FENCE, 0).Some? {
      assert rest[|h|..|h| + 6][..4] == rest[|h|..|h| + 4];
    }
    assert h + "\n---" == rest[..|h| + 4];
  }

  /** Whatever was split off by any branch is printable. */
  lemma SplitIsPrintable(rest: string)
    requires Split(rest).Some?
    ensures Printable(Split(rest).value.header)
  {
    var h := Split(rest).value.header;
    var t := h + "\n---";
    HeaderIsClosed(rest);
    forall k: nat | OccursAt(t, FENCE, k) ensures OccursAt(rest, FENCE, k) && k < |h| {
      assert rest[k..k + 5] == t[k..k + 5];
    }
  }

  /** The branch for a final `\r\n---` is never taken: such a text also ends in `\n---`. */
  lemma LastBranchUnreachable(rest: string)
    ensures EndsWith(rest, "\r\n---") ==> EndsWith(rest, "\n---")
    ensures Split(rest).Some? <==> Contains(rest, FENCE) || Contains(rest, CRLF_FENCE) || EndsWith(rest, "\n---")
  {
    if EndsWith(rest, "\r\n---") {
      assert rest[|rest| - 4..] == rest[|rest| - 5..][1..];
    }
  }

  /** The splitter of the scanner. */
  function SplitYaml(rest: string): Result<Parts, string> {
    match SplitOnce(rest, "\n---\n")
    case Some(parts) => Ok(parts)
    case None =>
      match SplitOnce(rest, "\n---\r\n")
      case Some(parts) => Ok(parts)
      case None =>
        if EndsWith(rest, "\n---") then Ok(Parts(rest[..|rest| - 4], ""))
        else if EndsWith(rest, "\r\n---") then Ok(Parts(rest[..|rest| - 5], ""))
        else Err("unterminated YAML frontmatter")
  }

  /** Scanner and exporter agree on every text. */
  lemma SplittersAgree(rest: string)
    ensures SplitYaml(rest) == match Split(rest) case Some(p) => Ok(p) case None => Err("unterminated YAML frontmatter")
  {
    LastBranchUnreachable(rest);
  }

  /** A file that the scanner splits keeps header and body for the scanner when it is exported. */
  lemma ScannedSurvivesExport(rest: string)
    requires SplitYaml(rest).Ok?
    ensures Split(rest) == Some(SplitYaml(rest).value)
    ensures SplitYaml(Preimage(SplitYaml(rest).value)) == SplitYaml(rest)
  {
    SplittersAgree(rest);
    SplitIsPrintable(rest);
    PrintedSplitsBack(Split(rest).value);
    SplittersAgree(Preimage(Split(rest).value));
  }

  // ----- files ------------------------------------------------------------------------------

  datatype ReadError = MissingFrontmatter | Unterminated | InvalidHeader

  datatype Header = Header(name: string, description: string, version: Option<string>, permissions: string)

  datatype Skill = Skill(parts: Parts, header: Header)

  function ParseFile(content: string): Result<Parts, ReadError> {
    var rest :=
      match StripPrefix(content, "---\n") case Some(r) => Some(r) case None => StripPrefix(content, "---\r\n");
    match rest
    case None => Err(MissingFrontmatter)
    case Some(r) =>
      match Split(r)
      case None => Err(Unterminated)
      case Some(parts) => Ok(parts)
  }

  /** Reading a skill file; `interpret` is the YAML reader with the description taken from the body as a default. */
  function ReadSkill(content: string, interpret: Parts -> Option<Header>): Result<Skill, ReadError> {
    match ParseFile(content)
    case Err(e) => Err(e)
    case Ok(parts) =>
      match interpret(parts)
      case None => Err(InvalidHeader)
      case Some(header) => Ok(Skill(parts, header))
  }

  /** Printing what was parsed and parsing it again gives the same header and body. */
  lemma ReprintedParsesBack(content: string)
    requires ParseFile(content).Ok?
    ensures ParseFile(Print(ParseFile(content).value)) == ParseFile(content)
  {
    var parts := ParseFile(content).value;
    var rest := if "---\n" <= content then content[4..] else content[5..];
    SplitIsPrintable(rest);
    PrintedSplitsBack(parts);
    PrintedRest(parts);
  }

  lemma PrintedRest(parts: Parts)
    ensures StripPrefix(Print(parts), "---\n") == Some(Preimage(parts))
  {
    assert Print(parts)[..4] == "---\n" && Print(parts)[4..] == Preimage(parts);
  }

  /** Every printed pair parses; it parses as that pair exactly when the header is printable. */
  lemma PrintedParses(parts: Parts)
    ensures ParseFile(Print(parts)).Ok?
    ensures ParseFile(Print(parts)) == Ok(parts) <==> Printable(parts.header)
  {
    PrintedSplitsBack(parts);
    PrintedRest(parts);
    assert OccursAt(Preimage(parts), FENCE, |parts.header|) by {
      assert Preimage(parts)[|parts.header|..|parts.header| + 5] == FENCE;
    }
  }

  // ----- fingerprints -----------------------------------------------------------------------

  function Fingerprint(parts: Parts, hash: string -> string): string {
    hash(Preimage(parts))
  }

  /** Among parsed skills, equal fingerprints mean equal header and body. */
  lemma FingerprintIdentifiesParsed(a: string, b: string, hash: string -> string)
    requires CollisionFree(hash) && ParseFile(a).Ok? && ParseFile(b).Ok?
    ensures Fingerprint(ParseFile(a).value, hash) == Fingerprint(ParseFile(b).value, hash) <==>
            ParseFile(a) == ParseFile(b)
  {
    var p, q := ParseFile(a).value, ParseFile(b).value;
    SplitIsPrintable(if "---\n" <= a then a[4..] else a[5..]);
    SplitIsPrintable(if "---\n" <= b then b[4..] else b[5..]);
    PrintedSplitsBack(p);
    PrintedSplitsBack(q);
  }

  /** Without parsing, different pairs can share a fingerprint. */
  lemma FingerprintIsAmbiguous(hash: string -> string)
    ensures Fingerprint(Parts("a\n---\nb", "c"), hash) == Fingerprint(Parts("a", "b\n---\nc"), hash)
  {
    assert Preimage(Parts("a\n---\nb", "c")) == Preimage(Parts("a", "b\n---\nc"));
  }

  // ----- bundles ----------------------------------------------------------------------------

  datatype Bundle = Bundle(skillFile: string, header: Header, fingerprint: string)

  datatype ImportError = BadSkill(error: ReadError) | FingerprintMismatch

  datatype Reimported = Reimported(fingerprint: string, header: Header)

  function Export(
    content: string, interpret: Parts -> Option<Header>, hash: string -> string): Result<Bundle, ReadError>
  {
    match ReadSkill(content, interpret)
    case Err(e) => Err(e)
    case Ok(skill) => Ok(Bundle(Print(skill.parts), skill.header, Fingerprint(skill.parts, hash)))
  }

  function Reimport(
    bundle: Bundle, interpret: Parts -> Option<Header>, hash: string -> string): Result<Reimported, ImportError>
  {
    match ReadSkill(bundle.skillFile, interpret)
    case Err(e) => Err(BadSkill(e))
    case Ok(skill) =>
      if Fingerprint(skill.parts, hash) != bundle.fingerprint then Err(FingerprintMismatch)
      else Ok(Reimported(bundle.fingerprint, bundle.header))
  }

  /** Every readable skill survives export and reimport with its header, body and fingerprint. */
  lemma ExportedReimports(content: string, interpret: Parts -> Option<Header>, hash: string -> string)
    requires ReadSkill(content, interpret).Ok?
    ensures Export(content, interpret, hash).Ok?
    ensures
      var skill, bundle := ReadSkill(content, interpret).value, Export(content, interpret, hash).value;
      && Reimport(bundle, interpret, hash) == Ok(Reimported(Fingerprint(skill.parts, hash), skill.header))
      && ReadSkill(bundle.skillFile, interpret) == Ok(skill)
      && Export(bundle.skillFile, interpret, hash) == Ok(bundle)
  {
    ReprintedParsesBack(content);
  }

  /** A bundle whose skill file was replaced is accepted exactly when the new file reads as the same header and body. */
  lemma ReimportDetectsChanges(
    content: string, replaced: string, interpret: Parts -> Option<Header>, hash: string -> string)
    requires CollisionFree(hash) && ReadSkill(content, interpret).Ok?
    ensures
      var bundle := Export(content, interpret, hash).value.(skillFile := replaced);
      Reimport(bundle, interpret, hash).Ok? <==> ParseFile(replaced) == ParseFile(content)
  {
    if ParseFile(replaced).Ok? {
      FingerprintIdentifiesParsed(replaced, content, hash);
    }
  }
}
