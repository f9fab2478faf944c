/** Redaction of config snapshots (crates/commands/src/snapshot_redaction.rs). */
module Redaction {
  import opened Common

  const REDACTED_SNAPSHOT_PREFIX := "# skills-copilot: snapshot content redacted\n"
  const REDACTED_VALUE := "[REDACTED]"

  datatype Field = Field(key: string, value: Json)

  datatype Json = Object(fields: seq<Field>) | Array(items: seq<Json>) | Text(text: string) | Scalar(raw: string)

  /** The JSON and JSON5 parsers and the JSON printer. */
  datatype Codec = Codec(parseJson: string -> Option<Json>, parseJson5: string -> Option<Json>, render: Json -> string)

  predicate IsAsciiAlphanumeric(c: char) {
    '0' <= c <= '9' || 'a' <= c <= 'z' || 'A' <= c <= 'Z'
  }

  function KeyLetters(key: string): string {
    if key == "" then ""
    else if IsAsciiAlphanumeric(key[0]) then [AsciiLower(key[0])] + KeyLetters(key[1..])
    else KeyLetters(key[1..])
  }

  predicate IsSensitiveKey(key: string) {
    var letters := KeyLetters(key);
    letters == "passwd" || EndsWith(letters, "token") || EndsWith(letters, "apikey") ||
    EndsWith(letters, "secret") || EndsWith(letters, "password")
  }

  // ----- JSON documents ---------------------------------------------------------------------

  function Redacted(value: Json): Json {
    match value
    case Object(fields) => Object(RedactedFields(fields))
    case Array(items) => Array(RedactedItems(items))
    case Text(_) => value
    case Scalar(_) => value
  }

  function RedactedFields(fields: seq<Field>): (r: seq<Field>)
    ensures |r| == |fields|
  {
    if fields == [] then []
    else
      var Field(key, value) := fields[0];
      [Field(key, if IsSensitiveKey(key) then Text(REDACTED_VALUE) else Redacted(value))] + RedactedFields(fields[1..])
  }

  function RedactedItems(items: seq<Json>): (r: seq<Json>)
    ensures |r| == |items|
  {
    if items == [] then [] else [Redacted(items[0])] + RedactedItems(items[1..])
  }

  lemma {:induction false} RedactedFieldAt(fields: seq<Field>, i: nat)
    requires i < |fields|
    ensures RedactedFields(fields)[i] ==
            Field(
              fields[i].key,
              if IsSensitiveKey(fields[i].key) then Text(REDACTED_VALUE) else Redacted(fields[i].value))
  {
    if i > 0 {
      RedactedFieldAt(fields[1..], i - 1);
    }
  }

  lemma {:induction false} RedactedItemAt(items: seq<Json>, i: nat)
    requires i < |items|
    ensures RedactedItems(items)[i] == Redacted(items[i])
  {
    if i > 0 {
      RedactedItemAt(items[1..], i - 1);
    }
  }

  /** The rewrite of the tree, reporting whether anything changed. */
  method RedactJsonValue(value: Json) returns (result: Json, changed: bool)
    ensures result == Redacted(value)
    ensures changed <==> result != value
    decreases value
  {
    match value
    case Object(fields) =>
      var out := fields;
      changed := false;
      for i := 0 to |fields|
        invariant |out| == |fields|
        invariant forall k :: 0 <= k < i ==> out[k] == RedactedFields(fields)[k]
        invariant forall k :: i <= k < |fields| ==> out[k] == fields[k]
        invariant changed <==> exists k :: 0 <= k < i && out[k] != fields[k]
      {
        RedactedFieldAt(fields, i);
        var Field(key, field) := fields[i];
        if IsSensitiveKey(key) {
          if field != Text(REDACTED_VALUE) {
            out := out[i := Field(key, Text(REDACTED_VALUE))];
            changed := true;
          }
        } else {
          var inner, innerChanged := RedactJsonValue(field);
          out := out[i := Field(key, inner)];
          changed := changed || innerChanged;
        }
      }
      assert out == RedactedFields(fields);
      result := Object(out);
    case Array(items) =>
      var out := items;
      changed := false;
      for i := 0 to |items|
        invariant |out| == |items|
        invariant forall k :: 0 <= k < i ==> out[k] == RedactedItems(items)[k]
        invariant forall k :: i <= k < |items| ==> out[k] == items[k]
        invariant changed <==> exists k :: 0 <= k < i && out[k] != items[k]
      {
        RedactedItemAt(items, i);
        var inner, innerChanged := RedactJsonValue(items[i]);
        out := out[i := inner];
        changed := changed || innerChanged;
      }
      assert out == RedactedItems(items);
      result := Array(out);
    case Text(_) =>
      result, changed := value, false;
    case Scalar(_) =>
      result, changed := value, false;
  }

  /** No sensitive key anywhere in the tree holds anything but the placeholder. */
  predicate Clean(value: Json) {
    match value
    case Object(fields) =>
      forall i :: 0 <= i < |fields| ==>
        if IsSensitiveKey(fields[i].key) then fields[i].value == Text(REDACTED_VALUE) else Clean(fields[i].value)
    case Array(items) => forall i :: 0 <= i < |items| ==> Clean(items[i])
    case Text(_) => true
    case Scalar(_) => true
  }

  /** The trees differ at most in what their sensitive keys hold. */
  predicate SameButSecrets(a: Json, b: Json) {
    match (a, b)
    case (Object(fields), Object(others)) =>
      && |fields| == |others|
      && (forall i :: 0 <= i < |fields| ==>
            && fields[i].key == others[i].key
            && (!IsSensitiveKey(fields[i].key) ==> SameButSecrets(fields[i].value, others[i].value)))
    case (Array(items), Array(others)) =>
      |items| == |others| && forall i :: 0 <= i < |items| ==> SameButSecrets(items[i], others[i])
    case (_, _) => a == b
  }

  /** Redaction is the one rewrite that cleans the secrets and keeps everything else. */
  lemma {:induction false} RedactedIsTheCleaning(value: Json, result: Json)
    ensures result == Redacted(value) <==> Clean(result) && SameButSecrets(value, result)
    decreases value
  {
    match value
    case Object(fields) =>
      if result.Object? && |result.fields| == |fields| {
        forall i | 0 <= i < |fields|
          ensures var Field(key, field) := result.fields[i];
                  result.fields[i] == RedactedFields(fields)[i] <==>
                  && key == fields[i].key
                  && (if IsSensitiveKey(key) then field == Text(REDACTED_VALUE)
                      else Clean(field) && SameButSecrets(fields[i].value, field))
        {
          RedactedFieldAt(fields, i);
          RedactedIsTheCleaning(fields[i].value, result.fields[i].value);
        }
        assert result.fields == RedactedFields(fields) <==>
          forall i :: 0 <= i < |fields| ==> result.fields[i] == RedactedFields(fields)[i];
      }
    case Array(items) =>
      if result.Array? && |result.items| == |items| {
        forall i | 0 <= i < |items|
          ensures result.items[i] == RedactedItems(items)[i] <==>
                  Clean(result.items[i]) && SameButSecrets(items[i], result.items[i])
        {
          RedactedItemAt(items, i);
          RedactedIsTheCleaning(items[i], result.items[i]);
        }
        assert result.items == RedactedItems(items) <==>
          forall i :: 0 <= i < |items| ==> result.items[i] == RedactedItems(items)[i];
      }
    case Text(_) =>
    case Scalar(_) =>
  }

  lemma {:induction false} SameAsItself(value: Json)
    ensures SameButSecrets(value, value)
  {
    match value
    case Object(fields) =>
      forall i | 0 <= i < |fields| ensures SameButSecrets(fields[i].value, fields[i].value) {
        SameAsItself(fields[i].value);
      }
    case Array(items) =>
      forall i | 0 <= i < |items| ensures SameButSecrets(items[i], items[i]) {
        SameAsItself(items[i]);
      }
    case Text(_) =>
    case Scalar(_) =>
  }

  lemma UnchangedIffClean(value: Json)
    ensures Redacted(value) == value <==> Clean(value)
  {
    RedactedIsTheCleaning(value, value);
    SameAsItself(value);
  }

  // ----- line-based documents ---------------------------------------------------------------

  const SECRET_MARKER := " \"" + REDACTED_VALUE + "\""

  /** What stays behind a redacted value: a trailing comma and a comment. */
  function Suffix(comma: bool, comment: string): string {
    if comma then (if comment != "" then ", " + comment else ",")
    else (if comment != "" then " " + comment else "")
  }

  function MarkValue(marker: string, head: string, value: string): string {
    head + marker + Suffix(EndsWithChar(TrimEnd(value), ','), value[IndexOf(value, '#')..])
  }

  /**
    Replaces the value of a secret assignment. The source trims blanks and quotes off the key
    first, which the key test, reading only letters and digits, cannot notice.
   */
  function RedactLine(line: string): string {
    var cut := AssignmentAt(line);
    if cut == |line| || !IsSensitiveKey(line[..cut]) then line
    else MarkValue(SECRET_MARKER, line[..cut + 1], line[cut + 1..])
  }

  /** The first `=` of a line, else its first `:`, else its length. */
  function AssignmentAt(line: string): (cut: nat)
    ensures cut <= |line|
    ensures cut < |line| <==> '=' in line || ':' in line
    ensures cut < |line| ==> line[cut] == if '=' in line then '=' else ':'
    ensures cut < |line| ==> line[cut] !in line[..cut]
  {
    var equals := IndexOf(line, '=');
    if equals < |line| then equals
    else assert line[..equals] == line; IndexOf(line, ':')
  }

  function StripCarriageReturn(line: string): string {
    if EndsWithChar(line, '\r') then line[..|line| - 1] else line
  }

  /** `str::lines`: a line ends at "\n" or "\r\n", a last line without line feed keeps its "\r". */
  function Lines(text: string): seq<string>
    decreases |text|
  {
    if text == "" then []
    else
      var i := IndexOf(text, '\n');
      if i == |text| then [text] else [StripCarriageReturn(text[..i])] + Lines(text[i + 1..])
  }

  function MapLines(f: string -> string, lines: seq<string>): seq<string> {
    if lines == [] then [] else [f(lines[0])] + MapLines(f, lines[1..])
  }

  function Join(lines: seq<string>): string {
    if lines == [] then "" else if |lines| == 1 then lines[0] else lines[0] + "\n" + Join(lines[1..])
  }

  /** Rewrites every line and joins the lines with line feeds, keeping a final one. */
  function RewriteLines(f: string -> string, content: string): string {
    var rewritten := Join(MapLines(f, Lines(content)));
    if EndsWithChar(content, '\n') then rewritten + "\n" else rewritten
  }

  function RedactText(content: string): string {
    RewriteLines(RedactLine, content)
  }

  predicate HasCrLf(text: string) {
    exists i :: 0 <= i < |text| - 1 && text[i] == '\r' && text[i + 1] == '\n'
  }

  ghost predicate LinesKept(f: string -> string, lines: seq<string>) {
    forall k :: 0 <= k < |lines| ==> f(lines[k]) == lines[k]
  }

  /** What the rewriting of a line must not do for a document's line ends to be recognisable. */
  ghost predicate RewritesWithinLines(f: string -> string) {
    forall line :: f(line) != line + "\r" && ('\n' !in line ==> '\n' !in f(line))
  }

  lemma FirstLineFeed(a: string, rest: string)
    requires '\n' !in a
    ensures IndexOf(a + "\n" + rest, '\n') == |a|
    ensures Lines(a + "\n" + rest) == [StripCarriageReturn(a)] + Lines(rest)
  {
    var text := a + "\n" + rest;
    var i := IndexOf(text, '\n');
    assert text[|a|] == '\n';
    assert forall k :: 0 <= k < |a| ==> text[k] == a[k];
    assert text[..|a|] == a && text[|a| + 1..] == rest;
  }

  lemma JoinCons(first: string, lines: seq<string>)
    ensures Join([first] + lines) == if lines == [] then first else first + "\n" + Join(lines)
  {
    assert ([first] + lines)[1..] == lines;
  }

  lemma RewriteStep(f: string -> string, a: string, rest: string)
    requires '\n' !in a
    ensures RewriteLines(f, a + "\n" + rest) == f(StripCarriageReturn(a)) + "\n" + RewriteLines(f, rest)
  {
    var text := a + "\n" + rest;
    var first := f(StripCarriageReturn(a));
    FirstLineFeed(a, rest);
    var lines := MapLines(f, Lines(rest));
    assert lines == [] <==> rest == "";
    assert MapLines(f, Lines(text)) == [first] + lines by {
      assert Lines(text)[1..] == Lines(rest);
    }
    JoinCons(first, lines);
    if rest == "" {
      assert EndsWithChar(text, '\n');
    } else if EndsWithChar(rest, '\n') {
      assert EndsWithChar(text, '\n');
      assert (first + "\n" + Join(lines)) + "\n" == first + "\n" + (Join(lines) + "\n");
    } else {
      assert !EndsWithChar(text, '\n');
    }
  }

  /** One line with its line feed is kept exactly when it has no "\r" to lose and its text is kept. */
  lemma FirstLineKept(f: string -> string, a: string, rest: string, rewrittenRest: string)
    requires RewritesWithinLines(f) && '\n' !in a
    ensures f(StripCarriageReturn(a)) + "\n" + rewrittenRest == a + "\n" + rest <==>
            !EndsWithChar(a, '\r') && f(StripCarriageReturn(a)) == StripCarriageReturn(a) && rewrittenRest == rest
  {
    var line := StripCarriageReturn(a);
    if f(line) + "\n" + rewrittenRest == a + "\n" + rest {
      FieldsDetermined(f(line), rewrittenRest, a, rest, '\n');
    }
    if EndsWithChar(a, '\r') {
      assert a == line + "\r";
    }
  }

  lemma LinesKeptCons(f: string -> string, first: string, lines: seq<string>)
    ensures LinesKept(f, [first] + lines) <==> f(first) == first && LinesKept(f, lines)
  {
    var all := [first] + lines;
    assert all[0] == first;
    assert forall k :: 0 <= k < |lines| ==> lines[k] == all[k + 1];
    assert forall k :: 1 <= k < |all| ==> all[k] == lines[k - 1];
  }

  /** Rewriting keeps a document exactly when it has no CRLF line end and every line is kept. */
  lemma {:induction false} KeptExactly(f: string -> string, text: string)
    requires RewritesWithinLines(f)
    ensures RewriteLines(f, text) == text <==> !HasCrLf(text) && LinesKept(f, Lines(text))
    decreases |text|
  {
    var i := IndexOf(text, '\n');
    if text == "" {
    } else if i == |text| {
      assert text[..i] == text;
      assert Lines(text) == [text] && MapLines(f, [text]) == [f(text)];
    } else {
      var a, rest := text[..i], text[i + 1..];
      assert text == a + "\n" + rest;
      FirstLineFeed(a, rest);
      RewriteStep(f, a, rest);
      FirstLineKept(f, a, rest, RewriteLines(f, rest));
      KeptExactly(f, rest);
      CrLfStep(a, rest);
      LinesKeptCons(f, StripCarriageReturn(a), Lines(rest));
    }
  }

  lemma CommentStaysPut(lead: string, before: string, tail: string)
    requires '#' !in lead && '#' !in before
    ensures lead + (['#'] + tail) != before + (['#'] + tail) + "\r"
  {
    assert lead + (['#'] + tail) == lead + ['#'] + tail;
    assert before + (['#'] + tail) + "\r" == before + ['#'] + (tail + "\r");
    if lead + ['#'] + tail == before + ['#'] + (tail + "\r") {
      FieldsDetermined(lead, tail, before, tail + "\r", '#');
    }
  }

  lemma LastCharDiffers(a: string, b: string)
    requires a != "" && a[|a| - 1] != '\r'
    ensures a != b + "\r"
  {
    assert (b + "\r")[|b|] == '\r';
  }

  /** What replaces a value is never the value with a carriage return after it. */
  lemma MarkerIsNotTheValue(marker: string, before: string, comma: bool, comment: string)
    requires '#' !in marker && EndsWithChar(marker, '\"') && '#' !in before
    requires comment == "" || comment[0] == '#'
    ensures marker + Suffix(comma, comment) != before + comment + "\r"
  {
    if comment != "" {
      var tail := comment[1..];
      assert comment == ['#'] + tail;
      if comma {
        CommentStaysPut(marker + ", ", before, tail);
        assert marker + (", " + comment) == (marker + ", ") + comment;
      } else {
        CommentStaysPut(marker + " ", before, tail);
        assert marker + (" " + comment) == (marker + " ") + comment;
      }
    } else {
      LastCharDiffers(marker + Suffix(comma, comment), before + comment);
    }
  }

  lemma HeadsCancel(head: string, x: string, y: string)
    requires x != y
    ensures head + x != head + y
  {
    assert (head + x)[|head|..] == x && (head + y)[|head|..] == y;
  }

  lemma MarkedValueDiffers(marker: string, head: string, before: string, comma: bool, comment: string)
    requires '#' !in marker && EndsWithChar(marker, '\"') && '#' !in before
    requires comment == "" || comment[0] == '#'
    ensures head + marker + Suffix(comma, comment) != head + before + comment + "\r"
  {
    MarkerIsNotTheValue(marker, before, comma, comment);
    HeadsCancel(head, marker + Suffix(comma, comment), before + comment + "\r");
    assert head + marker + Suffix(comma, comment) == head + (marker + Suffix(comma, comment));
    assert head + before + comment + "\r" == head + (before + comment + "\r");
  }

  lemma MarkerFacts()
    ensures '#' !in SECRET_MARKER && '\n' !in SECRET_MARKER && EndsWithChar(SECRET_MARKER, '\"')
  {
  }

  lemma MarkingNeverAppends(marker: string, head: string, value: string)
    requires '#' !in marker && EndsWithChar(marker, '\"')
    ensures MarkValue(marker, head, value) != head + value + "\r"
  {
    var i := IndexOf(value, '#');
    var before, comment := value[..i], value[i..];
    MarkedValueDiffers(marker, head, before, EndsWithChar(TrimEnd(value), ','), comment);
    assert before + comment == value;
    Regroup(head, before, comment);
  }

  lemma Regroup(a: string, b: string, c: string)
    ensures a + b + c == a + (b + c)
  {
  }

  lemma MarkingStaysOneLine(marker: string, head: string, value: string)
    requires '\n' !in marker && '\n' !in head && '\n' !in value
    ensures '\n' !in MarkValue(marker, head, value)
  {
    var comma, comment := EndsWithChar(TrimEnd(value), ','), value[IndexOf(value, '#')..];
    assert '\n' !in comment;
    assert '\n' !in Suffix(comma, comment);
  }

  lemma RedactedLineIsMarked(line: string)
    ensures var cut := AssignmentAt(line);
            RedactLine(line) == line ||
            (cut < |line| && RedactLine(line) == MarkValue(SECRET_MARKER, line[..cut + 1], line[cut + 1..]))
  {
  }

  lemma MarkedLineDiffers(line: string, cut: nat)
    requires cut < |line|
    ensures MarkValue(SECRET_MARKER, line[..cut + 1], line[cut + 1..]) != line + "\r"
  {
    MarkerFacts();
    MarkedPartsDiffer(SECRET_MARKER, line, cut + 1);
  }

  lemma MarkedPartsDiffer(marker: string, line: string, i: nat)
    requires '#' !in marker && EndsWithChar(marker, '\"') && i <= |line|
    ensures MarkValue(marker, line[..i], line[i..]) != line + "\r"
  {
    MarkingNeverAppends(marker, line[..i], line[i..]);
    Split(line, i);
  }

  lemma Split(line: string, i: nat)
    requires i <= |line|
    ensures line[..i] + line[i..] == line
  {
  }

  lemma RedactionNeverAppends(line: string)
    ensures RedactLine(line) != line + "\r"
  {
    RedactedLineIsMarked(line);
    if RedactLine(line) == line {
      assert |line + "\r"| == |line| + 1;
    } else {
      MarkedLineDiffers(line, AssignmentAt(line));
    }
  }

  lemma RedactionStaysOneLine(line: string)
    requires '\n' !in line
    ensures '\n' !in RedactLine(line)
  {
    RedactedLineIsMarked(line);
    if RedactLine(line) != line {
      var cut := AssignmentAt(line);
      MarkerFacts();
      MarkingStaysOneLine(SECRET_MARKER, line[..cut + 1], line[cut + 1..]);
    }
  }

  lemma RedactionStaysWithinLines()
    ensures RewritesWithinLines(RedactLine)
  {
    forall line ensures RedactLine(line) != line + "\r" && ('\n' !in line ==> '\n' !in RedactLine(line)) {
      RedactionNeverAppends(line);
      if '\n' !in line {
        RedactionStaysOneLine(line);
      }
    }
  }

  /** Line-based redaction keeps a document exactly when it has no CRLF line end and no line to redact. */
  lemma TextKeptExactly(text: string)
    ensures RedactText(text) == text <==> !HasCrLf(text) && LinesKept(RedactLine, Lines(text))
  {
    RedactionStaysWithinLines();
    KeptExactly(RedactLine, text);
  }

  lemma CrLfStep(a: string, rest: string)
    requires '\n' !in a
    ensures HasCrLf(a + "\n" + rest) <==> EndsWithChar(a, '\r') || HasCrLf(rest)
  {
    var text := a + "\n" + rest;
    if EndsWithChar(a, '\r') {
      assert text[|a| - 1] == '\r' && text[|a| - 1 + 1] == '\n';
    }
    if HasCrLf(rest) {
      var k :| 0 <= k < |rest| - 1 && rest[k] == '\r' && rest[k + 1] == '\n';
      var j := |a| + 1 + k;
      assert text[j] == '\r' && text[j + 1] == '\n';
    }
    if k :| 0 <= k < |text| - 1 && text[k] == '\r' && text[k + 1] == '\n' {
      assert forall m :: 0 <= m < |a| ==> text[m] == a[m];
      assert k + 1 >= |a|;
      if k + 1 > |a| {
        var j := k - |a| - 1;
        assert k != |a|;
        assert rest[j] == '\r' && rest[j + 1] == '\n';
      }
    }
  }

  // ----- snapshots --------------------------------------------------------------------------

  predicate IsRedactedSnapshot(content: string) {
    REDACTED_SNAPSHOT_PREFIX <= content
  }

  function RedactDocument(codec: Codec, content: string, value: Json): string {
    if Redacted(value) != value then REDACTED_SNAPSHOT_PREFIX + codec.render(Redacted(value)) + "\n" else content
  }

  function RedactSnapshotContent(codec: Codec, content: string): string {
    if content == "" || IsRedactedSnapshot(content) then content
    else if codec.parseJson(content).Some? then RedactDocument(codec, content, codec.parseJson(content).value)
    else if codec.parseJson5(content).Some? then RedactDocument(codec, content, codec.parseJson5(content).value)
    else if RedactText(content) == content then content
    else REDACTED_SNAPSHOT_PREFIX + RedactText(content)
  }

  /** What makes a document free of anything to redact. */
  ghost predicate NothingToRedact(codec: Codec, content: string) {
    if codec.parseJson(content).Some? then Clean(codec.parseJson(content).value)
    else if codec.parseJson5(content).Some? then Clean(codec.parseJson5(content).value)
    else !HasCrLf(content) && LinesKept(RedactLine, Lines(content))
  }

  /** The result is the input itself or marked as redacted, and marked exactly when something had to go. */
  lemma RedactionIsVisible(codec: Codec, content: string)
    ensures var r := RedactSnapshotContent(codec, content);
            && (r == content || IsRedactedSnapshot(r))
            && (IsRedactedSnapshot(r) <==>
                  content != "" && (IsRedactedSnapshot(content) || !NothingToRedact(codec, content)))
  {
    TextKeptExactly(content);
    if codec.parseJson(content).Some? {
      UnchangedIffClean(codec.parseJson(content).value);
    }
    if codec.parseJson5(content).Some? {
      UnchangedIffClean(codec.parseJson5(content).value);
    }
  }

  /** A TOML file without secrets, but with a CRLF line end, counts as redacted. */
  lemma LineEndsAreRedacted(codec: Codec)
    requires codec.parseJson("a=1\r\n").None? && codec.parseJson5("a=1\r\n").None?
    ensures LinesKept(RedactLine, Lines("a=1\r\n"))
    ensures RedactSnapshotContent(codec, "a=1\r\n") == REDACTED_SNAPSHOT_PREFIX + "a=1\n"
  {
    FirstLineFeed("a=1\r", "");
    assert "a=1\r\n" == "a=1\r" + "\n" + "";
    assert StripCarriageReturn("a=1\r") == "a=1" && Lines("") == [];
    assert RedactLine("a=1") == "a=1" by {
      assert AssignmentAt("a=1") == 1 && "a=1"[..1] == "a";
      assert KeyLetters("a") == "a";
    }
    RewriteStep(RedactLine, "a=1\r", "");
    assert RedactText("a=1\r\n") == "a=1\n";
  }

  lemma RedactionIsIdempotent(codec: Codec, content: string)
    ensures RedactSnapshotContent(codec, RedactSnapshotContent(codec, content)) == RedactSnapshotContent(codec, content)
  {
    RedactionIsVisible(codec, content);
  }
}
