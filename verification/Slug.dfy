/** Canonical skill names (crates/commands/src/lib.rs 2794-2837). */
module Slug {
  import opened Common

  predicate IsSeparator(c: char) {
    c == '-' || c == '_'
  }

  predicate IsAlnum(c: char) {
    'a' <= c <= 'z' || '0' <= c <= '9'
  }

  /** Lowercase letters and digits, with single separators strictly inside. */
  predicate Canonical(name: string) {
    && name != ""
    && (forall i :: 0 <= i < |name| ==> IsAlnum(name[i]) || IsSeparator(name[i]))
    && IsAlnum(name[0]) && IsAlnum(name[|name| - 1])
    && (forall i :: 0 <= i < |name| - 1 ==> !(IsSeparator(name[i]) && IsSeparator(name[i + 1])))
  }

  /** A canonical name that may still end in one separator. */
  predicate Begun(name: string) {
    && (forall i :: 0 <= i < |name| ==> IsAlnum(name[i]) || IsSeparator(name[i]))
    && (name != "" ==> IsAlnum(name[0]))
    && (forall i :: 0 <= i < |name| - 1 ==> !(IsSeparator(name[i]) && IsSeparator(name[i + 1])))
  }

  predicate EndsInSeparator(name: string) {
    name != "" && IsSeparator(name[|name| - 1])
  }

  /** The checker accepts exactly the canonical names. */
  method IsCanonicalSkillName(name: string) returns (ok: bool)
    ensures ok <==> Canonical(name)
  {
    var previousWasSeparator, sawChar := false, false;
    for i := 0 to |name|
      invariant Begun(name[..i]) && sawChar == (i > 0) && previousWasSeparator == EndsInSeparator(name[..i])
    {
      var c := name[i];
      if IsAlnum(c) {
        previousWasSeparator, sawChar := false, true;
        continue;
      }
      if IsSeparator(c) && i > 0 && !previousWasSeparator {
        previousWasSeparator, sawChar := true, true;
        continue;
      }
      return false;
    }
    ok := sawChar && !previousWasSeparator;
  }

  // ----- suggestions ------------------------------------------------------------------------

  /** Unicode lowercase of one character, of which only the fixed characters matter. */
  ghost predicate FixesCanonical(lower: char -> string) {
    forall c :: IsAlnum(c) || IsSeparator(c) ==> lower(c) == [c]
  }

  function Lowered(name: string, lower: char -> string): string {
    if name == "" then "" else Lowered(name[..|name| - 1], lower) + lower(name[|name| - 1])
  }

  function Push(output: string, c: char): string {
    if IsAlnum(c) then output + [c]
    else if output == "" || EndsInSeparator(output) then output
    else if IsSeparator(c) then output + [c]
    else output + "-"
  }

  function Build(text: string): string {
    if text == "" then "" else Push(Build(text[..|text| - 1]), text[|text| - 1])
  }

  function WithoutEnd(output: string): string {
    if EndsInSeparator(output) then WithoutEnd(output[..|output| - 1]) else output
  }

  function Suggestion(name: string, lower: char -> string): string {
    var output := WithoutEnd(Build(Lowered(name, lower)));
    if output == "" then "skill-name" else output
  }

  method CanonicalSkillNameSuggestion(name: string, lower: char -> string) returns (suggestion: string)
    ensures suggestion == Suggestion(name, lower)
  {
    var output := "";
    var previousWasSeparator := false;
    var text := Lowered(name, lower);
    for i := 0 to |text|
      invariant output == Build(text[..i]) && previousWasSeparator == EndsInSeparator(output)
    {
      var c := text[i];
      assert text[..i + 1][..i] == text[..i];
      if IsAlnum(c) {
        output := output + [c];
        previousWasSeparator := false;
      } else if IsSeparator(c) && output != "" && !previousWasSeparator {
        output := output + [c];
        previousWasSeparator := true;
      } else if output != "" && !previousWasSeparator {
        output := output + "-";
        previousWasSeparator := true;
      }
    }
    assert text[..|text|] == text;
    while EndsInSeparator(output)
      invariant WithoutEnd(output) == WithoutEnd(Build(text))
      decreases |output|
    {
      output := output[..|output| - 1];
    }
    suggestion := if output == "" then "skill-name" else output;
  }

  lemma {:induction false} BuildIsBegun(text: string)
    ensures Begun(Build(text))
  {
    if text != "" {
      BuildIsBegun(text[..|text| - 1]);
    }
  }

  lemma {:induction false} TrimmedIsCanonical(output: string)
    requires Begun(output)
    ensures WithoutEnd(output) == "" || Canonical(WithoutEnd(output))
  {
    if EndsInSeparator(output) {
      TrimmedIsCanonical(output[..|output| - 1]);
    }
  }

  /** Whatever the name, the suggestion is accepted by the checker. */
  lemma SuggestionIsCanonical(name: string, lower: char -> string)
    ensures Canonical(Suggestion(name, lower))
  {
    var text := Lowered(name, lower);
    BuildIsBegun(text);
    TrimmedIsCanonical(Build(text));
  }

  lemma {:induction false} BegunIsLowered(name: string, lower: char -> string)
    requires FixesCanonical(lower) && Begun(name)
    ensures Lowered(name, lower) == name
  {
    if name != "" {
      var shorter, last := name[..|name| - 1], name[|name| - 1];
      BegunIsLowered(shorter, lower);
      assert name == shorter + [last];
    }
  }

  lemma {:induction false} BegunIsBuilt(name: string)
    requires Begun(name)
    ensures Build(name) == name
  {
    if name != "" {
      var shorter, last := name[..|name| - 1], name[|name| - 1];
      BegunIsBuilt(shorter);
      assert name == shorter + [last];
      if IsSeparator(last) {
        assert |name| > 1;
        assert !EndsInSeparator(shorter);
      }
    }
  }

  /**
    The names that the suggestion leaves alone are exactly the canonical ones, so suggesting twice is suggesting
    once.
   */
  lemma SuggestionFixesCanonical(name: string, lower: char -> string)
    requires FixesCanonical(lower)
    ensures Suggestion(name, lower) == name <==> Canonical(name)
    ensures Suggestion(Suggestion(name, lower), lower) == Suggestion(name, lower)
  {
    SuggestionIsCanonical(name, lower);
    CanonicalIsFixed(Suggestion(name, lower), lower);
    if Canonical(name) {
      CanonicalIsFixed(name, lower);
    }
  }

  lemma CanonicalIsFixed(name: string, lower: char -> string)
    requires FixesCanonical(lower) && Canonical(name)
    ensures Suggestion(name, lower) == name
  {
    BegunIsLowered(name, lower);
    BegunIsBuilt(name);
  }

  // ----- what a suggestion keeps ------------------------------------------------------------

  function Alnums(text: string): string {
    if text == "" then ""
    else Alnums(text[..|text| - 1]) + if IsAlnum(text[|text| - 1]) then [text[|text| - 1]] else ""
  }

  lemma AlnumsSnoc(text: string, c: char)
    ensures Alnums(text + [c]) == Alnums(text) + if IsAlnum(c) then [c] else ""
  {
    assert (text + [c])[..|text|] == text;
  }

  lemma {:induction false} BuildKeepsAlnums(text: string)
    ensures Alnums(Build(text)) == Alnums(text)
  {
    if text != "" {
      var shorter, last := text[..|text| - 1], text[|text| - 1];
      BuildKeepsAlnums(shorter);
      AlnumsSnoc(Build(shorter), last);
      AlnumsSnoc(Build(shorter), '-');
    }
  }

  lemma {:induction false} TrimKeepsAlnums(output: string)
    ensures Alnums(WithoutEnd(output)) == Alnums(output)
  {
    if EndsInSeparator(output) {
      TrimKeepsAlnums(output[..|output| - 1]);
    }
  }

  /** The letters and digits of a name survive in order, unless there are none. */
  lemma SuggestionKeepsAlnums(name: string, lower: char -> string)
    ensures Alnums(Lowered(name, lower)) != "" ==> Alnums(Suggestion(name, lower)) == Alnums(Lowered(name, lower))
    ensures Alnums(Lowered(name, lower)) == "" ==> Suggestion(name, lower) == "skill-name"
  {
    var text := Lowered(name, lower);
    BuildKeepsAlnums(text);
    TrimKeepsAlnums(Build(text));
    BuildIsBegun(text);
    TrimmedIsCanonical(Build(text));
    var output := WithoutEnd(Build(text));
    if output != "" {
      FirstAlnum(output);
    }
  }

  lemma {:induction false} FirstAlnum(output: string)
    requires output != "" && IsAlnum(output[0])
    ensures Alnums(output) != ""
  {
    if |output| > 1 {
      FirstAlnum(output[..|output| - 1]);
    }
  }
}
