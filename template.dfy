/**
 * Output file names of the entry compiler: rendering a name from the
 * configured template (`buildOutputFileName`) and recovering a source base
 * name from an output name (`getBaseName`), in src/compile/entry-compiler.ts.
 *
 * The template is a string in which `""` means "no template configured"
 * (the code tests it for truthiness). The MD5 digest of the compiled CSS is
 * computed by `node:crypto`; here it is a parameter, its lowercase hex text.
 */
module FilenameTemplate {
  import opened JsString
  import opened NodePath

  const NameToken: string := "[name]"
  const HashToken: string := "[hash]"

  /** The two templates the tests use. */
  const NameCss: string := "[name].css"
  const NameHashCss: string := "[name].[hash].css"

  /**
   * Where the group `[...]` at the start of `t` closes: the index of the
   * first `]` after a non-empty run of other characters, or 0 when `t` does
   * not start a group.
   */
  function GroupEnd(t: string): (j: nat)
    ensures j == 0 || 1 < j < |t|
  {
    if |t| == 0 || t[0] != '[' then 0
    else
      var k := IndexOfChar(t[1..], ']');
      if k >= 1 then k + 1 else 0
  }

  /** The text of a group, every bracket removed. */
  function VarText(group: string): string
  {
    Without(group, {'[', ']'})
  }

  /**
   * The template variables: the text of every group matched by
   * `/\[([^\]]+)]/g`, left to right, with every bracket removed.
   */
  function Placeholders(template: string): seq<string>
    decreases |template|
  {
    if |template| == 0 then []
    else
      var j := GroupEnd(template);
      if j > 0 then [VarText(template[1..j])] + Placeholders(template[j + 1..])
      else Placeholders(template[1..])
  }

  /** `digest.substring(0, 8)`. */
  function Hash8(digest: string): (h: string)
    ensures |h| == if |digest| < 8 then |digest| else 8
    ensures h == digest[..|h|]
    ensures forall c :: c in h ==> c in digest
  {
    if |digest| < 8 then digest else digest[..8]
  }

  /** The `forEach` over the variables in `buildOutputFileName`: each `name` or `hash` fills the first token left. */
  function Substitute(s: string, vars: seq<string>, stem: string, hash: string): string
    decreases |vars|
  {
    if vars == [] then s
    else
      var next :=
        if vars[0] == "name" then ReplaceFirst(s, NameToken, stem)
        else if vars[0] == "hash" then ReplaceFirst(s, HashToken, hash)
        else s;
      Substitute(next, vars[1..], stem, hash)
  }

  /** `outputExtension`: the template's extension, else `.css`. */
  function OutputExtension(template: string): string
  {
    if template != "" && ExtName(template) != "" then ExtName(template) else ".css"
  }

  /** `buildOutputFileName(file, content)` for a source file called `name`. */
  function BuildOutputFileName(template: string, name: string, digest: string): string
  {
    var vars := if template != "" then Placeholders(template) else [];
    var start := ReplaceFirst(if template != "" then template else name, ExtName(name), OutputExtension(template));
    Substitute(start, vars, Stem(name), Hash8(digest))
  }

  /** The extension of the files the reverse pass considers generated (`this.filename ? extname(...) : '.css'`). */
  function GeneratedExtension(template: string): string
  {
    if template != "" then ExtName(template) else ".css"
  }

  /** `filenameParts[idx]`, which is `undefined` (and prints as such) past the end. */
  function Part(parts: seq<string>, idx: nat): string
  {
    if idx < |parts| then parts[idx] else "undefined"
  }

  /** The `forEach` over the variables in `getBaseName`: `name` takes the segment at its ordinal, others vanish. */
  function Recover(s: string, vars: seq<string>, parts: seq<string>, idx: nat): string
    decreases |vars|
  {
    if vars == [] then s
    else
      var next :=
        if vars[0] == "name" then ReplaceFirst(s, NameToken, Part(parts, idx))
        else ReplaceFirst(s, "[" + vars[0] + "]", "");
      Recover(next, vars[1..], parts, idx + 1)
  }

  /** `getBaseName(file, extension)`; whatever the template, the result never ends in `.` or `_`. */
  function GetBaseName(template: string, file: string, extension: string): (r: string)
    ensures r == "" || r[|r| - 1] !in {'.', '_'}
    ensures |r| <= |BaseBeforeTrim(template, file, extension)|
    ensures r == BaseBeforeTrim(template, file, extension)[..|r|]
  {
    TrimTrailing(BaseBeforeTrim(template, file, extension), {'.', '_'})
  }

  function BaseBeforeTrim(template: string, file: string, extension: string): string
  {
    if template != "" then
      Recover(ReplaceFirst(template, extension, ""), Placeholders(template), Split(file, '.'), 0)
    else Stem(file)
  }

  /** A template with no `[` has no variables. */
  lemma {:induction false} PlaceholdersNone(t: string)
    requires '[' !in t
    decreases |t|
    ensures Placeholders(t) == []
  {
    if |t| > 0 {
      assert t[0] != '[';
      PlaceholdersNone(t[1..]);
    }
  }

  /** A leading `[v]` group is the first variable. */
  lemma PlaceholdersGroup(v: string, rest: string)
    requires v != "" && '[' !in v && ']' !in v
    ensures Placeholders("[" + v + "]" + rest) == [v] + Placeholders(rest)
  {
    var t := "[" + v + "]" + rest;
    assert t[1..] == v + "]" + rest;
    assert t[1..][|v|] == ']';
    assert IndexOfChar(t[1..], ']') == |v| by {
      assert t[1..][..|v|] == v;
    }
    assert GroupEnd(t) == |v| + 1;
    assert t[1..|v| + 1] == v;
    assert t[|v| + 2..] == rest;
    forall i | 0 <= i < |v|
      ensures v[i] !in {'[', ']'}
    {
      assert v[i] in v;
    }
    WithoutNothing(v, {'[', ']'});
  }

  lemma PlaceholdersOfNameCss()
    ensures Placeholders(NameCss) == ["name"]
  {
    PlaceholdersNone(".css");
    assert NameCss == "[" + "name" + "]" + ".css";
    PlaceholdersGroup("name", ".css");
  }

  /** A character other than `[` contributes nothing. */
  lemma PlaceholdersSkip(c: char, rest: string)
    requires c != '['
    ensures Placeholders([c] + rest) == Placeholders(rest)
  {
    assert ([c] + rest)[1..] == rest;
  }

  lemma PlaceholdersOfNameHashCss()
    ensures Placeholders(NameHashCss) == ["name", "hash"]
  {
    var t := "[" + "name" + "]" + ("." + ("[" + "hash" + "]" + ".css"));
    assert NameHashCss == t;
    PlaceholdersTwoGroups("name", ".", "hash", ".css");
  }

  /** Both tokens are a variable name in brackets. */
  lemma TokensAreGroups()
    ensures NameToken == "[" + "name" + "]" && '[' !in "name" && ']' !in "name"
    ensures HashToken == "[" + "hash" + "]" && '[' !in "hash" && ']' !in "hash"
  {
  }

  lemma PlaceholdersTwoGroups(v: string, mid: string, w: string, rest: string)
    requires v != "" && '[' !in v && ']' !in v
    requires w != "" && '[' !in w && ']' !in w
    requires '[' !in mid && '[' !in rest
    ensures Placeholders("[" + v + "]" + (mid + ("[" + w + "]" + rest))) == [v, w]
  {
    var second := "[" + w + "]" + rest;
    PlaceholdersNone(rest);
    PlaceholdersGroup(w, rest);
    PlaceholdersBefore(mid, second);
    PlaceholdersGroup(v, mid + second);
  }

  /** Text without `[` in front of a template contributes nothing. */
  lemma {:induction false} PlaceholdersBefore(pre: string, t: string)
    requires '[' !in pre
    decreases |pre|
    ensures Placeholders(pre + t) == Placeholders(t)
  {
    if |pre| == 0 {
      assert pre + t == t;
    } else {
      var rest := pre[1..] + t;
      assert pre[0] in pre;
      assert pre + t == [pre[0]] + rest;
      PlaceholdersSkip(pre[0], rest);
      assert '[' !in pre[1..];
      PlaceholdersBefore(pre[1..], t);
    }
  }

  /** The tokens `[name]` and `[hash]` never reach into an extension that has no `[`. */
  lemma {:induction false} SubstituteKeepsSuffix(p: string, e: string, vars: seq<string>, stem: string, hash: string)
    requires |e| > 0 && e[0] == '.' && '[' !in e
    decreases |vars|
    ensures Substitute(p + e, vars, stem, hash) == Substitute(p, vars, stem, hash) + e
  {
    if vars != [] {
      assert NameToken[0] == '[' && '.' !in NameToken;
      assert HashToken[0] == '[' && '.' !in HashToken;
      ReplaceFirstBeforeSuffix(p, e, NameToken, stem);
      ReplaceFirstBeforeSuffix(p, e, HashToken, hash);
      var next :=
        if vars[0] == "name" then ReplaceFirst(p, NameToken, stem)
        else if vars[0] == "hash" then ReplaceFirst(p, HashToken, hash)
        else p;
      SubstituteKeepsSuffix(next, e, vars[1..], stem, hash);
    }
  }

  /** Variables other than `name` and `hash` are left in the output as written. */
  lemma {:induction false} UnknownVariablesStayLiteral(s: string, vars: seq<string>, stem: string, hash: string)
    requires forall i :: 0 <= i < |vars| ==> vars[i] != "name" && vars[i] != "hash"
    decreases |vars|
    ensures Substitute(s, vars, stem, hash) == s
  {
    if vars != [] {
      UnknownVariablesStayLiteral(s, vars[1..], stem, hash);
    }
  }

  /**
   * With a template whose extension has no `[`, and a source whose
   * extension does not occur in the template, the output name is the
   * template's stem with its variables filled in, followed by the template's
   * own extension.
   */
  lemma TemplateExtensionKept(template: string, name: string, digest: string)
    requires template != "" && ExtName(template) != "" && '[' !in ExtName(template)
    requires !Contains(template, ExtName(name))
    ensures BuildOutputFileName(template, name, digest)
      == Substitute(Stem(template), Placeholders(template), Stem(name), Hash8(digest)) + ExtName(template)
    ensures EndsWith(BuildOutputFileName(template, name, digest), ExtName(template))
  {
    var e := ExtName(template);
    ReplaceFirstAbsent(template, ExtName(name), e);
    assert Stem(template) + e == template;
    SubstituteKeepsSuffix(Stem(template), e, Placeholders(template), Stem(name), Hash8(digest));
    var r := BuildOutputFileName(template, name, digest);
    var q := Substitute(Stem(template), Placeholders(template), Stem(name), Hash8(digest));
    assert r == q + e;
    assert r[|r| - |e|..] == e;
  }

  /** Without a template a source `stem.ext` becomes `stem.css`. */
  lemma NoTemplateSwapsExtension(name: string, digest: string)
    requires ExtName(name) != "" && '.' !in Stem(name)
    ensures BuildOutputFileName("", name, digest) == Stem(name) + ".css"
  {
    var stem, ext := Stem(name), ExtName(name);
    assert name == stem + ext;
    NoOccurrenceIn(stem, ext, ext);
    ReplaceFirstAfter(stem, ext, ext, ".css");
    ReplaceFirstAtStart(ext, ext, ".css");
    assert ext[|ext|..] == "";
  }

  /**
   * Without a template a source with no extension gets `.css` in FRONT of its
   * name: the empty extension is found at index 0.
   */
  lemma NoTemplateNoExtension(name: string, digest: string)
    requires ExtName(name) == ""
    ensures BuildOutputFileName("", name, digest) == ".css" + name
  {
    ReplaceFirstEmptyPattern(name, ".css");
  }

  lemma ExtNameOfNameCss()
    ensures ExtName(NameCss) == ".css" && Stem(NameCss) == NameToken
  {
    assert NameCss == NameToken + ".css";
    ExtNameOfSuffix(NameToken, ".css");
  }

  lemma ExtNameOfNameHashCss()
    ensures ExtName(NameHashCss) == ".css" && Stem(NameHashCss) == "[name].[hash]"
  {
    assert NameHashCss == "[name].[hash]" + ".css";
    ExtNameOfSuffix("[name].[hash]", ".css");
  }

  /** An extension as `path.extname` returns it: a dot, then at least one character, none of them a dot. */
  predicate IsExtension(e: string)
  {
    |e| >= 2 && e[0] == '.' && '.' !in e[1..]
  }

  /** The parts of a `[name]` template with an extension. */
  lemma NameTemplateParts(e: string)
    requires IsExtension(e) && '[' !in e
    ensures ExtName(NameToken + e) == e && Stem(NameToken + e) == NameToken
    ensures Placeholders(NameToken + e) == ["name"]
  {
    ExtNameOfSuffix(NameToken, e);
    NameTemplateVariablesWith(e);
  }

  /** Filling a lone `[name]` gives the stem. */
  lemma SubstituteName(stem: string, hash: string)
    ensures Substitute(NameToken, ["name"], stem, hash) == stem
  {
    ReplaceFirstLeading(NameToken, "", stem);
    assert NameToken + "" == NameToken && stem + "" == stem;
  }

  /** `[name]` followed by an extension renders `stem` followed by that extension. */
  lemma NameTemplateBuild(e: string, name: string, digest: string)
    requires IsExtension(e) && '[' !in e
    requires !Contains(NameToken + e, ExtName(name))
    ensures BuildOutputFileName(NameToken + e, name, digest) == Stem(name) + e
  {
    NameTemplateParts(e);
    TemplateExtensionKept(NameToken + e, name, digest);
    SubstituteName(Stem(name), Hash8(digest));
  }

  lemma NameHashTemplateExtension(sep: string, e: string)
    requires IsExtension(e)
    ensures ExtName(NameToken + sep + HashToken + e) == e
    ensures Stem(NameToken + sep + HashToken + e) == NameToken + sep + HashToken
  {
    ExtNameOfSuffix(NameToken + sep + HashToken, e);
  }

  lemma NameHashTemplateVariables(sep: string, e: string)
    requires '[' !in e && '[' !in sep
    ensures Placeholders(NameToken + sep + HashToken + e) == ["name", "hash"]
  {
    TokensAreGroups();
    assert NameToken + sep + HashToken + e == NameToken + (sep + (HashToken + e));
    PlaceholdersTwoGroups("name", sep, "hash", e);
  }

  /** Filling the token a template starts with. */
  lemma FillLeading(first: string, sep: string, second: string, value: string)
    ensures ReplaceFirst(first + sep + second, first, value) == value + sep + second
  {
    ReplaceFirstLeading(first, sep + second, value);
    assert first + sep + second == first + (sep + second);
    assert value + sep + second == value + (sep + second);
  }

  /** Filling the token a template ends with, when nothing before it holds a `[`. */
  lemma FillTrailing(pre: string, token: string, value: string)
    requires |token| > 0 && token[0] == '[' && '[' !in pre
    ensures ReplaceFirst(pre + token, token, value) == pre + value
  {
    ReplaceFirstSkip(pre, token, "", value);
    assert pre + (token + "") == pre + token;
    assert pre + (value + "") == pre + value;
  }

  /** Filling `[name]` then `[hash]` when the stem and the separator hold no `[`. */
  lemma SubstituteNameHash(sep: string, stem: string, hash: string)
    requires '[' !in stem + sep
    ensures Substitute(NameToken + sep + HashToken, ["name", "hash"], stem, hash) == stem + sep + hash
  {
    FillLeading(NameToken, sep, HashToken, stem);
    FillTrailing(stem + sep, HashToken, hash);
  }

  /**
   * `[name]`, a separator, `[hash]` and an extension render the stem, the
   * separator, the first eight digest characters and the extension.
   */
  lemma NameHashTemplateBuild(sep: string, e: string, name: string, digest: string)
    requires IsExtension(e) && '[' !in e && '[' !in sep && '[' !in Stem(name)
    requires !Contains(NameToken + sep + HashToken + e, ExtName(name))
    ensures BuildOutputFileName(NameToken + sep + HashToken + e, name, digest)
      == Stem(name) + sep + Hash8(digest) + e
  {
    NameHashTemplateExtension(sep, e);
    NameHashTemplateVariables(sep, e);
    TemplateExtensionKept(NameToken + sep + HashToken + e, name, digest);
    assert '[' !in Stem(name) + sep;
    SubstituteNameHash(sep, Stem(name), Hash8(digest));
  }

  /** Without a template, `stem` followed by any extension is recovered as `stem`. */
  lemma NoTemplateRecover(stem: string, e: string, extension: string)
    requires IsExtension(e) && stem != "" && stem[|stem| - 1] !in {'.', '_'}
    ensures GetBaseName("", stem + e, extension) == stem
  {
    ExtNameOfSuffix(stem, e);
  }

  /** `[name]` takes the first dot-separated part of the output name. */
  lemma RecoverName(parts: seq<string>)
    requires |parts| > 0
    ensures Recover(NameToken, ["name"], parts, 0) == parts[0]
  {
    ReplaceFirstLeading(NameToken, "", parts[0]);
    assert NameToken + "" == NameToken && parts[0] + "" == parts[0];
  }

  lemma StripNameExtension(e: string)
    requires IsExtension(e)
    ensures ReplaceFirst(NameToken + e, e, "") == NameToken
  {
    ReplaceFirstSkip(NameToken, e, "", "");
    assert NameToken + (e + "") == NameToken + e && NameToken + ("" + "") == NameToken;
  }

  /** Under `[name]` plus an extension, an output `stem` plus that extension is recovered as `stem`. */
  lemma NameTemplateRecover(e: string, stem: string)
    requires IsExtension(e) && '[' !in e
    requires stem != "" && '.' !in stem && stem[|stem| - 1] !in {'.', '_'}
    ensures GetBaseName(NameToken + e, stem + e, e) == stem
  {
    NameTemplateBase(e, stem);
    TrimNothing(stem);
  }

  lemma NameTemplateBase(e: string, stem: string)
    requires IsExtension(e) && '[' !in e && '.' !in stem
    ensures BaseBeforeTrim(NameToken + e, stem + e, e) == stem
  {
    NameTemplateParts(e);
    StripNameExtension(e);
    SplitFirst(stem, e, '.');
    RecoverName(Split(stem + e, '.'));
  }

  lemma TrimNothing(stem: string)
    requires stem != "" && stem[|stem| - 1] !in {'.', '_'}
    ensures TrimTrailing(stem, {'.', '_'}) == stem
  {
  }

  /** In a template of two tokens joined by a dot, the extension first occurs at the very end. */
  lemma StripTwoTokenExtension(first: string, second: string, e: string)
    requires IsExtension(e) && '[' !in e
    requires '.' !in first && '.' !in second && |second| > 0 && second[0] == '['
    ensures ReplaceFirst(first + "." + second + e, e, "") == first + "." + second
  {
    SkipFirstToken(first, second, e);
    StripAfterDottedToken(first, second, e);
  }

  lemma SkipFirstToken(first: string, second: string, e: string)
    requires IsExtension(e) && '.' !in first
    ensures ReplaceFirst(first + "." + second + e, e, "") == first + ReplaceFirst("." + second + e, e, "")
  {
    var rest := "." + second + e;
    assert first + "." + second + e == first + rest;
    NoOccurrenceIn(first, rest, e);
    ReplaceFirstAfter(first, rest, e, "");
  }

  lemma StripAfterDottedToken(first: string, second: string, e: string)
    requires IsExtension(e) && '[' !in e
    requires '.' !in second && |second| > 0 && second[0] == '['
    ensures first + ReplaceFirst("." + second + e, e, "") == first + "." + second
  {
    var rest := "." + second + e;
    assert rest == "." + (second + e);
    assert !OccursAt(rest, e, 0) by {
      assert rest[1] == '[';
      assert e[1] in e[1..];
    }
    ReplaceFirstAfter(".", second + e, e, "");
    StripTrailingExtension(second, e);
  }

  lemma StripTrailingExtension(a: string, e: string)
    requires IsExtension(e) && '.' !in a
    ensures ReplaceFirst(a + e, e, "") == a
  {
    ReplaceFirstSkip(a, e, "", "");
    assert a + (e + "") == a + e && a + ("" + "") == a;
  }

  lemma ClearTrailingHash(stem: string)
    requires '[' !in stem
    ensures ReplaceFirst(stem + "." + HashToken, HashToken, "") == stem + "."
  {
    FillTrailing(stem + ".", HashToken, "");
    assert stem + "." + "" == stem + ".";
  }

  /** `[name]` takes the first part, `[hash]` vanishes and leaves its dot behind. */
  lemma RecoverNameHash(parts: seq<string>, stem: string)
    requires |parts| > 0 && parts[0] == stem && '[' !in stem
    ensures Recover(NameToken + "." + HashToken, ["name", "hash"], parts, 0) == stem + "."
  {
    FillLeading(NameToken, ".", HashToken, stem);
    RecoverHashStep(parts, stem);
  }

  lemma RecoverHashStep(parts: seq<string>, stem: string)
    requires '[' !in stem
    ensures Recover(stem + "." + HashToken, ["hash"], parts, 1) == stem + "."
  {
    var vars := ["hash"];
    assert "[" + vars[0] + "]" == HashToken;
    ClearTrailingHash(stem);
    assert Recover(stem + "." + HashToken, vars, parts, 1) == Recover(stem + ".", vars[1..], parts, 2);
  }

  lemma SplitDotted(stem: string, h: string, e: string)
    requires '.' !in stem && IsExtension(e)
    ensures Split(stem + "." + h + e, '.')[0] == stem
  {
    assert stem + "." + h + e == stem + ("." + h + e);
    SplitFirst(stem, "." + h + e, '.');
  }

  lemma TrimOneDot(stem: string)
    requires stem != "" && stem[|stem| - 1] !in {'.', '_'}
    ensures TrimTrailing(stem + ".", {'.', '_'}) == stem
  {
    assert (stem + ".")[..|stem|] == stem;
  }

  /**
   * Under `[name].[hash]` plus an extension, an output `stem.anything` plus
   * that extension is recovered as `stem`: the hash part is never looked at.
   */
  lemma NameHashTemplateRecover(e: string, stem: string, h: string)
    requires IsExtension(e) && '[' !in e
    requires stem != "" && '.' !in stem && '[' !in stem && stem[|stem| - 1] !in {'.', '_'}
    ensures GetBaseName(NameToken + "." + HashToken + e, stem + "." + h + e, e) == stem
  {
    NameHashTemplateVariables(".", e);
    StripTwoTokenExtension(NameToken, HashToken, e);
    SplitDotted(stem, h, e);
    RecoverNameHash(Split(stem + "." + h + e, '.'), stem);
    TrimOneDot(stem);
  }

  /** Without a template, a compiled `stem.ext` is traced back to `stem`. */
  lemma NoTemplateRoundTrip(name: string, digest: string)
    requires ExtName(name) != "" && '.' !in Stem(name) && Stem(name)[|Stem(name)| - 1] !in {'.', '_'}
    ensures GetBaseName("", BuildOutputFileName("", name, digest), GeneratedExtension("")) == Stem(name)
  {
    NoTemplateSwapsExtension(name, digest);
    NoTemplateRecoverCss(Stem(name));
    NoTemplateCompose(name, digest, Stem(name));
  }

  lemma NoTemplateRecoverCss(stem: string)
    requires stem != "" && stem[|stem| - 1] !in {'.', '_'}
    ensures GetBaseName("", stem + ".css", GeneratedExtension("")) == stem
  {
    NoTemplateRecover(stem, ".css", ".css");
  }

  lemma NoTemplateCompose(name: string, digest: string, r: string)
    requires BuildOutputFileName("", name, digest) == Stem(name) + ".css"
    requires GetBaseName("", Stem(name) + ".css", GeneratedExtension("")) == r
    ensures GetBaseName("", BuildOutputFileName("", name, digest), GeneratedExtension("")) == r
  {
  }

  /** Under `[name]` plus an extension, a compiled file is traced back to its source's stem. */
  lemma NameTemplateRoundTrip(e: string, name: string, digest: string)
    requires IsExtension(e) && '[' !in e
    requires !Contains(NameToken + e, ExtName(name))
    requires Stem(name) != "" && '.' !in Stem(name) && Stem(name)[|Stem(name)| - 1] !in {'.', '_'}
    ensures GetBaseName(NameToken + e, BuildOutputFileName(NameToken + e, name, digest), GeneratedExtension(NameToken + e)) == Stem(name)
  {
    NameTemplateParts(e);
    NameTemplateBuild(e, name, digest);
    NameTemplateRecover(e, Stem(name));
  }

  /** Under `[name].[hash]` plus an extension, a compiled file is traced back to its source's stem. */
  lemma NameHashTemplateRoundTrip(e: string, name: string, digest: string)
    requires IsExtension(e) && '[' !in e
    requires !Contains(NameToken + "." + HashToken + e, ExtName(name))
    requires Stem(name) != "" && '.' !in Stem(name) && '[' !in Stem(name)
    requires Stem(name)[|Stem(name)| - 1] !in {'.', '_'}
    ensures GetBaseName(NameToken + "." + HashToken + e, BuildOutputFileName(NameToken + "." + HashToken + e, name, digest),
                        GeneratedExtension(NameToken + "." + HashToken + e)) == Stem(name)
  {
    NameHashTemplateExtension(".", e);
    NameHashTemplateBuild(".", e, name, digest);
    NameHashTemplateRecover(e, Stem(name), Hash8(digest));
  }

  lemma ReverseNameExample()
    ensures GetBaseName(NameCss, "archivo.css", ".css") == "archivo"
  {
    assert NameCss == NameToken + ".css";
    assert "archivo.css" == "archivo" + ".css";
    NameTemplateRecover(".css", "archivo");
  }

  lemma ReverseNameHashExample()
    ensures GetBaseName(NameHashCss, "archivo.123456.css", ".css") == "archivo"
  {
    assert NameHashCss == NameToken + "." + HashToken + ".css";
    assert "archivo.123456.css" == "archivo" + "." + "123456" + ".css";
    NameHashTemplateRecover(".css", "archivo", "123456");
  }

  /*
   * A template that puts `[hash]` before `[name]`: `getBaseName` reads the
   * name at the variable's ordinal, and the removed `[hash]` leaves its dot
   * behind, so the recovered name starts with a dot and matches no source.
   */

  lemma HashNameTemplateExtension(e: string)
    requires IsExtension(e)
    ensures ExtName(HashToken + "." + NameToken + e) == e
    ensures GeneratedExtension(HashToken + "." + NameToken + e) == e
    ensures Stem(HashToken + "." + NameToken + e) == HashToken + "." + NameToken
  {
    ExtNameOfSuffix(HashToken + "." + NameToken, e);
  }

  lemma HashNameTemplateVariables(e: string)
    requires '[' !in e
    ensures Placeholders(HashToken + "." + NameToken + e) == ["hash", "name"]
  {
    HashSepNameVariables(".", e);
  }

  lemma HashSepNameVariables(sep: string, e: string)
    requires '[' !in e && '[' !in sep
    ensures Placeholders(HashToken + sep + NameToken + e) == ["hash", "name"]
  {
    TokensAreGroups();
    assert HashToken + sep + NameToken + e == HashToken + (sep + (NameToken + e));
    PlaceholdersTwoGroups("hash", sep, "name", e);
  }

  lemma SubstituteHashName(hash: string, stem: string)
    requires '[' !in hash
    ensures Substitute(HashToken + "." + NameToken, ["hash", "name"], stem, hash) == hash + "." + stem
  {
    FillLeading(HashToken, ".", NameToken, hash);
    assert '[' !in hash + ".";
    FillTrailing(hash + ".", NameToken, stem);
  }

  /** `[hash].[name]` plus an extension renders the hash, a dot, the stem and the extension. */
  lemma HashNameTemplateBuild(e: string, name: string, digest: string)
    requires IsExtension(e) && '[' !in e && '[' !in digest
    requires !Contains(HashToken + "." + NameToken + e, ExtName(name))
    ensures BuildOutputFileName(HashToken + "." + NameToken + e, name, digest) == Hash8(digest) + "." + Stem(name) + e
  {
    HashNameTemplateExtension(e);
    HashNameTemplateVariables(e);
    TemplateExtensionKept(HashToken + "." + NameToken + e, name, digest);
    HashHasNo(digest, '[');
    SubstituteHashName(Hash8(digest), Stem(name));
  }

  lemma RecoverHashFirst(parts: seq<string>)
    ensures Recover(HashToken + "." + NameToken, ["hash"], parts, 0) == Recover("." + NameToken, [], parts, 1)
  {
    var vars := ["hash"];
    assert "[" + vars[0] + "]" == HashToken;
    FillLeading(HashToken, ".", NameToken, "");
    assert "" + "." + NameToken == "." + NameToken;
  }

  lemma RecoverNameSecond(parts: seq<string>)
    requires |parts| > 1
    ensures Recover("." + NameToken, ["name"], parts, 1) == "." + parts[1]
  {
    FillTrailing(".", NameToken, parts[1]);
  }

  /** `[hash]` vanishes and leaves its dot; `[name]`, the second variable, takes the second part. */
  lemma RecoverHashName(parts: seq<string>)
    requires |parts| > 1
    ensures Recover(HashToken + "." + NameToken, ["hash", "name"], parts, 0) == "." + parts[1]
  {
    var vars := ["hash", "name"];
    assert "[" + vars[0] + "]" == HashToken;
    FillLeading(HashToken, ".", NameToken, "");
    assert "" + "." + NameToken == "." + NameToken;
    assert vars[1..] == ["name"];
    RecoverNameSecond(parts);
  }

  lemma SplitDottedSecond(h: string, stem: string, e: string)
    requires '.' !in h && '.' !in stem && IsExtension(e)
    ensures |Split(h + "." + stem + e, '.')| > 1 && Split(h + "." + stem + e, '.')[1] == stem
  {
    assert h + "." + stem + e == h + (['.'] + (stem + e));
    SplitSecond(h, stem, e, '.');
  }

  lemma TrimAfterDot(stem: string)
    requires stem != "" && stem[|stem| - 1] !in {'.', '_'}
    ensures TrimTrailing("." + stem, {'.', '_'}) == "." + stem
  {
    assert ("." + stem)[|stem|] == stem[|stem| - 1];
  }

  /** As written: under `[hash].[name]` the output `h.stem` plus the extension is traced back to `.stem`. */
  lemma HashNameTemplateRecover(e: string, stem: string, h: string)
    requires IsExtension(e) && '[' !in e && '.' !in h
    requires stem != "" && '.' !in stem && stem[|stem| - 1] !in {'.', '_'}
    ensures GetBaseName(HashToken + "." + NameToken + e, h + "." + stem + e, e) == "." + stem
  {
    HashNameTemplateVariables(e);
    StripTwoTokenExtension(HashToken, NameToken, e);
    SplitDottedSecond(h, stem, e);
    RecoverHashName(Split(h + "." + stem + e, '.'));
    TrimAfterDot(stem);
  }

  /**
   * As written, a file compiled under `[hash].[name]` plus an extension is
   * traced back to `.stem`, which is never its source's stem: the reverse
   * pass finds no source for it and deletes it.
   */
  lemma HashNameTemplateLosesName(e: string, name: string, digest: string)
    requires IsExtension(e) && '[' !in e && '[' !in digest && '.' !in digest
    requires !Contains(HashToken + "." + NameToken + e, ExtName(name))
    requires Stem(name) != "" && '.' !in Stem(name) && Stem(name)[|Stem(name)| - 1] !in {'.', '_'}
    ensures GetBaseName(HashToken + "." + NameToken + e, BuildOutputFileName(HashToken + "." + NameToken + e, name, digest),
                        GeneratedExtension(HashToken + "." + NameToken + e)) == "." + Stem(name)
    ensures "." + Stem(name) != Stem(name)
  {
    HashNameTemplateBuild(e, name, digest);
    HashNameTemplateRecoverDigest(e, name, digest);
    HashNameTemplateExtension(e);
    HashNameTemplateCompose(e, name, digest, "." + Stem(name));
    DotPrefixDiffers(Stem(name));
  }

  lemma HashNameTemplateRecoverDigest(e: string, name: string, digest: string)
    requires IsExtension(e) && '[' !in e && '.' !in digest
    requires Stem(name) != "" && '.' !in Stem(name) && Stem(name)[|Stem(name)| - 1] !in {'.', '_'}
    ensures GetBaseName(HashToken + "." + NameToken + e, Hash8(digest) + "." + Stem(name) + e, e) == "." + Stem(name)
    ensures GetBaseNameCorrected(HashToken + "." + NameToken + e, Hash8(digest) + "." + Stem(name) + e, e) == Stem(name)
  {
    HashHasNo(digest, '.');
    HashNameTemplateRecover(e, Stem(name), Hash8(digest));
    HashNameTemplateRecoverCorrected(e, Stem(name), Hash8(digest));
  }

  /** Composes the build and the recovery of a `[hash].[name]` output name. */
  lemma HashNameTemplateCompose(e: string, name: string, digest: string, r: string)
    requires BuildOutputFileName(HashToken + "." + NameToken + e, name, digest) == Hash8(digest) + "." + Stem(name) + e
    requires GeneratedExtension(HashToken + "." + NameToken + e) == e
    requires GetBaseName(HashToken + "." + NameToken + e, Hash8(digest) + "." + Stem(name) + e, e) == r
    ensures GetBaseName(HashToken + "." + NameToken + e, BuildOutputFileName(HashToken + "." + NameToken + e, name, digest),
                        GeneratedExtension(HashToken + "." + NameToken + e)) == r
  {
  }

  lemma DotPrefixDiffers(s: string)
    ensures "." + s != s
  {
    assert |"." + s| != |s|;
  }

  lemma HashHasNo(digest: string, c: char)
    requires c !in digest
    ensures c !in Hash8(digest)
  {
  }

  /** Which dot-separated part of the template holds its first `[name]`. */
  function NameSegment(template: string): nat
  {
    var k := IndexOf(template, NameToken);
    if k < 0 then 0 else CountChar(template[..k], '.')
  }

  /**
   * `getBaseName` as evidently intended: when the template holds `[name]`,
   * the name is the part of the output file name that sits where `[name]`
   * sits among the template's dot-separated parts; otherwise as written.
   */
  function GetBaseNameCorrected(template: string, file: string, extension: string): (r: string)
    ensures r == "" || r[|r| - 1] !in {'.', '_'}
  {
    if template != "" && Contains(template, NameToken) then
      TrimTrailing(Part(Split(file, '.'), NameSegment(template)), {'.', '_'})
    else GetBaseName(template, file, extension)
  }

  lemma NameSegmentLeading(rest: string)
    ensures Contains(NameToken + rest, NameToken) && NameSegment(NameToken + rest) == 0
  {
    var t := NameToken + rest;
    assert t[..|NameToken|] == NameToken;
    assert OccursAt(t, NameToken, 0);
    assert IndexOf(t, NameToken) == 0;
  }

  lemma NameAfterHash(e: string)
    ensures forall i :: 0 <= i < |HashToken + "."| ==> !OccursAt(HashToken + "." + (NameToken + e), NameToken, i)
  {
    var a := HashToken + ".";
    var t := a + (NameToken + e);
    forall i | 0 <= i < |a|
      ensures !OccursAt(t, NameToken, i)
    {
      if i + |NameToken| <= |t| {
        if i == 0 {
          assert t[i..i + |NameToken|][1] == 'h';
        } else {
          assert t[i..i + |NameToken|][0] == a[i];
        }
      }
    }
  }

  lemma NameSegmentAfterHash(e: string)
    ensures Contains(HashToken + "." + NameToken + e, NameToken)
    ensures NameSegment(HashToken + "." + NameToken + e) == 1
  {
    var a := HashToken + ".";
    var t := HashToken + "." + NameToken + e;
    assert t == a + (NameToken + e);
    NameAfterHash(e);
    IndexOfAfter(a, NameToken + e, NameToken);
    NameSegmentLeading(e);
    assert IndexOf(t, NameToken) == |a|;
    assert OccursAt(t, NameToken, |a|);
    assert t[..|a|] == a;
    CountCharAppend(HashToken, ".", '.');
  }

  /** Corrected: under `[hash].[name]` plus an extension, a compiled file is traced back to its source's stem. */
  lemma HashNameTemplateRoundTrip(e: string, name: string, digest: string)
    requires IsExtension(e) && '[' !in e && '[' !in digest && '.' !in digest
    requires !Contains(HashToken + "." + NameToken + e, ExtName(name))
    requires Stem(name) != "" && '.' !in Stem(name) && Stem(name)[|Stem(name)| - 1] !in {'.', '_'}
    ensures GetBaseNameCorrected(HashToken + "." + NameToken + e, BuildOutputFileName(HashToken + "." + NameToken + e, name, digest),
                                 GeneratedExtension(HashToken + "." + NameToken + e)) == Stem(name)
  {
    HashNameTemplateBuild(e, name, digest);
    HashNameTemplateRecoverDigest(e, name, digest);
    HashNameTemplateExtension(e);
    HashNameTemplateComposeCorrected(e, name, digest, Stem(name));
  }

  lemma HashNameTemplateRecoverCorrected(e: string, stem: string, h: string)
    requires IsExtension(e) && '[' !in e && '.' !in h
    requires stem != "" && '.' !in stem && stem[|stem| - 1] !in {'.', '_'}
    ensures GetBaseNameCorrected(HashToken + "." + NameToken + e, h + "." + stem + e, e) == stem
  {
    NameSegmentAfterHash(e);
    SplitDottedSecond(h, stem, e);
    TrimNothing(stem);
  }

  lemma HashNameTemplateComposeCorrected(e: string, name: string, digest: string, r: string)
    requires BuildOutputFileName(HashToken + "." + NameToken + e, name, digest) == Hash8(digest) + "." + Stem(name) + e
    requires GeneratedExtension(HashToken + "." + NameToken + e) == e
    requires GetBaseNameCorrected(HashToken + "." + NameToken + e, Hash8(digest) + "." + Stem(name) + e, e) == r
    ensures GetBaseNameCorrected(HashToken + "." + NameToken + e, BuildOutputFileName(HashToken + "." + NameToken + e, name, digest),
                                 GeneratedExtension(HashToken + "." + NameToken + e)) == r
  {
  }

  /** The correction changes nothing under `[name]` plus an extension. */
  lemma CorrectedAgreesOnNameTemplate(e: string, file: string)
    requires IsExtension(e) && '[' !in e
    ensures GetBaseNameCorrected(NameToken + e, file, e) == GetBaseName(NameToken + e, file, e)
  {
    NameSegmentLeading(e);
    NameTemplateParts(e);
    StripNameExtension(e);
    RecoverName(Split(file, '.'));
  }

  lemma TrimDropsDot(s: string)
    ensures TrimTrailing(s + ".", {'.', '_'}) == TrimTrailing(s, {'.', '_'})
  {
    assert (s + ".")[..|s|] == s;
  }

  /** The correction changes nothing under `[name].[hash]` plus an extension. */
  lemma CorrectedAgreesOnNameHashTemplate(e: string, file: string)
    requires IsExtension(e) && '[' !in e && '[' !in Split(file, '.')[0]
    ensures GetBaseNameCorrected(NameToken + "." + HashToken + e, file, e) == GetBaseName(NameToken + "." + HashToken + e, file, e)
  {
    var parts := Split(file, '.');
    assert NameToken + "." + HashToken + e == NameToken + ("." + HashToken + e);
    NameSegmentLeading("." + HashToken + e);
    NameHashTemplateVariables(".", e);
    StripTwoTokenExtension(NameToken, HashToken, e);
    RecoverNameHash(parts, parts[0]);
    TrimDropsDot(parts[0]);
  }

  /**
   * A template without an extension gets none: `.css` only ever replaces the
   * source's extension inside the template, and `[name]` holds none.
   */
  lemma TemplateWithoutExtension(name: string, digest: string)
    requires ExtName(name) != ""
    ensures BuildOutputFileName(NameToken, name, digest) == Stem(name)
  {
    BareNameTemplate();
    AbsentByFirstChar(NameToken, ExtName(name));
    ReplaceFirstAbsent(NameToken, ExtName(name), ".css");
    SubstituteName(Stem(name), Hash8(digest));
  }

  lemma BareNameTemplate()
    ensures ExtName(NameToken) == "" && Placeholders(NameToken) == ["name"] && '.' !in NameToken
  {
    BareNameVariables();
    assert '.' !in NameToken[1..];
  }

  lemma BareNameVariables()
    ensures Placeholders(NameToken) == ["name"]
  {
    NameTemplateVariablesWith("");
    assert NameToken + "" == NameToken;
  }

  lemma NameTemplateVariablesWith(rest: string)
    requires '[' !in rest
    ensures Placeholders(NameToken + rest) == ["name"]
  {
    TokensAreGroups();
    PlaceholdersNone(rest);
    PlaceholdersGroup("name", rest);
  }
}
