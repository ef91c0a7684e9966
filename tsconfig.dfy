/** The handler the tsconfig script gives `getStringTransformer`
    (src/.dev/.tsconfig/index.ts:27-56): for a match of the YAML-filename
    pattern it builds the canonical `tsconfig.<name>.json` name from the
    `basename`, `tsconfig` and `tsconfig_sep` groups. The pattern itself is
    not modelled; its matches and groups are inputs. */
module Tsconfig {
  import opened Js
  import opened JsStrings
  import opened Files

  /** The string a group is destructured to: its captured text, or the
      default `''` when the group is absent or `undefined`. */
  function GroupString(groups: JsValue, key: string): (r: string)
    ensures r != "" ==> groups.Object? && key in groups.fields && groups.fields[key] == Str(r)
    ensures groups.Object? && key in groups.fields && groups.fields[key].Str? ==> r == groups.fields[key].s
  {
    if groups.Object? && key in groups.fields && groups.fields[key].Str? then groups.fields[key].s else ""
  }

  function Basename(p: ReplacerParameters): string
  {
    GroupString(p.groups, "basename")
  }

  function TsconfigGroup(p: ReplacerParameters): string
  {
    GroupString(p.groups, "tsconfig")
  }

  function Separator(p: ReplacerParameters): string
  {
    GroupString(p.groups, "tsconfig_sep")
  }

  /** The handler has something to rename: there is a groups object and a
      non-empty `basename`. */
  predicate HasBasename(p: ReplacerParameters)
  {
    p.groups != Undefined && p.groups != Null && Basename(p) != ""
  }

  /** The `replacement` the handler computes: without a `tsconfig` group the
      basename is wrapped as `tsconfig.<basename>.json`; a basename that is
      nothing but the `tsconfig` prefix (with its separator) gives
      `tsconfig.json`; otherwise the first occurrence of the prefix is
      removed before wrapping. Every result has the canonical form. */
  function Replacement(basename: string, tsconfig: string, sep: string): (r: string)
    ensures StartsWith(r, "tsconfig.") && EndsWith(r, ".json")
  {
    if tsconfig == "" then
      "tsconfig." + basename + ".json"
    else if basename == tsconfig + sep then
      "tsconfig.json"
    else
      "tsconfig." + ReplaceFirst(basename, tsconfig + sep, "") + ".json"
  }

  /** A plain basename is wrapped whole: `app` becomes `tsconfig.app.json`. */
  lemma PlainBasenameIsWrapped(basename: string, sep: string)
    ensures Replacement(basename, "", sep) == "tsconfig." + basename + ".json"
    ensures Replacement("app", "", sep) == "tsconfig.app.json"
  {
  }

  /** A basename made of the prefix and separator alone is the base
      configuration `tsconfig.json`, whatever the separator. */
  lemma BarePrefixIsBaseConfig(tsconfig: string, sep: string)
    requires tsconfig != ""
    ensures Replacement(tsconfig + sep, tsconfig, sep) == "tsconfig.json"
  {
  }

  /** A basename that starts with the prefix and separator and goes on
      loses exactly that prefix: `tsconfig.app` becomes
      `tsconfig.app.json`, `tsconfig-base` becomes `tsconfig.base.json`. */
  lemma PrefixIsStripped(tsconfig: string, sep: string, rest: string)
    requires tsconfig != "" && rest != ""
    ensures Replacement(tsconfig + sep + rest, tsconfig, sep) == "tsconfig." + rest + ".json"
  {
    var prefix := tsconfig + sep;
    var basename := prefix + rest;
    assert basename != prefix;
    assert OccursAt(basename, prefix, 0) by {
      assert basename[0..|prefix|] == prefix;
    }
    IndexOfFirst(basename, prefix, 0);
    ReplaceFirstLiteral(basename, prefix, "", 0);
    assert basename[|prefix|..] == rest;
  }

  /** When the basename is more than the prefix, the replacement wraps
      what is left once the first occurrence of the prefix is cut out. */
  lemma FirstOccurrenceIsCut(basename: string, tsconfig: string, sep: string, i: nat)
    requires tsconfig != "" && basename != tsconfig + sep
    requires IndexOf(basename, tsconfig + sep) == Some(i)
    ensures Replacement(basename, tsconfig, sep) ==
      "tsconfig." + basename[..i] + basename[i + |tsconfig + sep|..] + ".json"
  {
    ReplaceFirstLiteral(basename, tsconfig + sep, "", i);
  }

  /** Where the text after the match starts: `offset + wholeMatch?.length`,
      which is `NaN` (read by `substring` as 0) when there is no whole
      match. */
  function PosteriorStart(p: ReplacerParameters): int
  {
    if p.wholeMatch.Str? then p.offset + |p.wholeMatch.s| else 0
  }

  /** The handler as written: without a basename the whole string is
      returned; with one, the text before the match, the replacement and
      the text after the match — the whole string rewritten, not only the
      match. */
  function TsconfigHandler(p: ReplacerParameters): (r: string)
    ensures !HasBasename(p) ==> r == p.wholeString
    ensures HasBasename(p) && 0 <= p.offset <= |p.wholeString| ==>
      StartsWith(r, p.wholeString[..p.offset])
      && OccursAt(r, Replacement(Basename(p), TsconfigGroup(p), Separator(p)), p.offset)
  {
    if p.groups == Undefined || p.groups == Null then
      p.wholeString
    else
      var basename, tsconfig, sep := Basename(p), TsconfigGroup(p), Separator(p);
      if basename == "" then
        p.wholeString
      else
        var prior := Substring(p.wholeString, 0, p.offset);
        var posterior := Substring(p.wholeString, PosteriorStart(p), |p.wholeString|);
        var replacement := Replacement(basename, tsconfig, sep);
        assert 0 <= p.offset <= |p.wholeString| ==> prior == p.wholeString[..p.offset];
        assert (prior + replacement + posterior)[|prior|..|prior| + |replacement|] == replacement;
        prior + replacement + posterior
  }

  /** Called with a match that lies inside the string, the as-written
      handler returns the string with the match exchanged for the
      replacement and the text on both sides kept. */
  lemma HandlerRewritesWholeString(p: ReplacerParameters)
    requires HasBasename(p) && p.wholeMatch.Str?
    requires 0 <= p.offset && p.offset + |p.wholeMatch.s| <= |p.wholeString|
    ensures TsconfigHandler(p) ==
      p.wholeString[..p.offset]
      + Replacement(Basename(p), TsconfigGroup(p), Separator(p))
      + p.wholeString[p.offset + |p.wholeMatch.s|..]
  {
    assert p.wholeString[0..p.offset] == p.wholeString[..p.offset];
  }

  /** The handler meant by the script: `replace` puts the handler's result
      in place of the match, so the handler returns the replacement alone,
      and the matched text itself when there is nothing to rename. */
  function CorrectedHandler(p: ReplacerParameters): (r: string)
    ensures !HasBasename(p) && p.wholeMatch.Str? ==> r == p.wholeMatch.s
    ensures HasBasename(p) ==> r == Replacement(Basename(p), TsconfigGroup(p), Separator(p))
  {
    if !HasBasename(p) then
      if p.wholeMatch.Str? then p.wholeMatch.s else ""
    else
      Replacement(Basename(p), TsconfigGroup(p), Separator(p))
  }

  /** With the corrected handler, replacing a match keeps the text on both
      sides of it, and a match with nothing to rename leaves the string as
      it was. */
  lemma CorrectedKeepsSurroundings(s: string, m: Match)
    requires ValidMatches(s, [m], 0)
    ensures var p := MatchParameters(m, s);
      ReplaceMatches(s, [m], 0, CorrectedHandler) ==
        s[..m.offset]
        + (if HasBasename(p) then Replacement(Basename(p), TsconfigGroup(p), Separator(p)) else m.text)
        + s[m.offset + |m.text|..]
    ensures !HasBasename(MatchParameters(m, s)) ==> ReplaceMatches(s, [m], 0, CorrectedHandler) == s
  {
    ReplaceOneMatch(s, m, CorrectedHandler);
    assert s[m.offset..m.offset + |m.text|] == m.text;
    assert s[..m.offset] + m.text + s[m.offset + |m.text|..] == s by {
      assert s == s[..m.offset] + s[m.offset..m.offset + |m.text|] + s[m.offset + |m.text|..];
    }
  }

  /** With the as-written handler the text around the match appears twice:
      once kept by `replace`, once inside the handler's result. */
  lemma AsWrittenDuplicatesSurroundings(s: string, m: Match)
    requires ValidMatches(s, [m], 0) && HasBasename(MatchParameters(m, s))
    ensures var p := MatchParameters(m, s);
      ReplaceMatches(s, [m], 0, TsconfigHandler) ==
        s[..m.offset] + s[..m.offset]
        + Replacement(Basename(p), TsconfigGroup(p), Separator(p))
        + s[m.offset + |m.text|..] + s[m.offset + |m.text|..]
  {
    var p := MatchParameters(m, s);
    ReplaceOneMatch(s, m, TsconfigHandler);
    HandlerRewritesWholeString(p);
  }

  /** For a match that is the whole string (the anchored filename pattern)
      the as-written handler and the corrected one agree, so output file
      names are right. */
  lemma AgreeOnWholeStringMatch(s: string, m: Match)
    requires m.offset == 0 && m.text == s
    ensures TsconfigHandler(MatchParameters(m, s)) == CorrectedHandler(MatchParameters(m, s))
  {
    var p := MatchParameters(m, s);
    if HasBasename(p) {
      HandlerRewritesWholeString(p);
      assert s[..0] == [] && s[|s|..] == [];
    }
  }

  /** The match the in-path pattern reports in `configs/tsconfig.yml`:
      `tsconfig.yml` after the `/`, with basename `tsconfig`, prefix
      `tsconfig` and no separator. */
  function InPathMatch(): Match
  {
    Match(8, "tsconfig.yml",
      [None, Some("tsconfig"), Some("tsconfig"), None, Some("."), Some("yml")],
      Some(map["dot" := Undefined, "basename" := Str("tsconfig"), "tsconfig" := Str("tsconfig"),
               "tsconfig_sep" := Undefined, "ext_dot" := Str("."), "ext" := Str("yml")]))
  }

  lemma InPathGroups(p: ReplacerParameters)
    requires p == MatchParameters(InPathMatch(), "configs/tsconfig.yml")
    ensures HasBasename(p)
    ensures Basename(p) == "tsconfig" && TsconfigGroup(p) == "tsconfig" && Separator(p) == ""
  {
  }

  lemma InPathMatchFits()
    ensures ValidMatches("configs/tsconfig.yml", [InPathMatch()], 0)
    ensures HasBasename(MatchParameters(InPathMatch(), "configs/tsconfig.yml"))
    ensures var p := MatchParameters(InPathMatch(), "configs/tsconfig.yml");
      Replacement(Basename(p), TsconfigGroup(p), Separator(p)) == "tsconfig.json"
  {
    var s := "configs/tsconfig.yml";
    assert s[8..20] == "tsconfig.yml";
    SingleMatchValid(s, InPathMatch());
    InPathGroups(MatchParameters(InPathMatch(), s));
    BarePrefixIsBaseConfig("tsconfig", "");
    assert "tsconfig" + "" == "tsconfig";
  }

  lemma InPathAsWritten(s: string, m: Match)
    requires s == "configs/tsconfig.yml" && m == InPathMatch()
    ensures ValidMatches(s, [m], 0)
    ensures ReplaceMatches(s, [m], 0, TsconfigHandler) == "configs/configs/tsconfig.json"
  {
    InPathMatchFits();
    var p := MatchParameters(m, s);
    var r := Replacement(Basename(p), TsconfigGroup(p), Separator(p));
    assert ReplaceMatches(s, [m], 0, TsconfigHandler) == s[..8] + s[..8] + r + s[20..] + s[20..] by {
      assert m.offset == 8 && |m.text| == 12;
      AsWrittenDuplicatesSurroundings(s, m);
    }
    InPathPieces(s);
  }

  lemma InPathPieces(s: string)
    requires s == "configs/tsconfig.yml"
    ensures s[..8] + s[..8] + "tsconfig.json" + s[20..] + s[20..] == "configs/configs/tsconfig.json"
    ensures s[..8] + "tsconfig.json" + s[20..] == "configs/tsconfig.json"
  {
    assert s[..8] == "configs/" && s[20..] == "";
  }

  lemma InPathCorrected(s: string, m: Match)
    requires s == "configs/tsconfig.yml" && m == InPathMatch()
    ensures ValidMatches(s, [m], 0)
    ensures ReplaceMatches(s, [m], 0, CorrectedHandler) == "configs/tsconfig.json"
  {
    InPathMatchFits();
    var p := MatchParameters(m, s);
    var r := Replacement(Basename(p), TsconfigGroup(p), Separator(p));
    assert ReplaceMatches(s, [m], 0, CorrectedHandler) == s[..8] + r + s[20..] by {
      assert m.offset == 8 && |m.text| == 12;
      CorrectedKeepsSurroundings(s, m);
    }
    InPathPieces(s);
  }

  /** In a configuration value `configs/tsconfig.yml` the as-written
      handler yields `configs/configs/tsconfig.json`, the corrected one
      `configs/tsconfig.json`. */
  lemma InPathCounterexample(s: string, m: Match)
    requires s == "configs/tsconfig.yml" && m == InPathMatch()
    ensures ValidMatches(s, [m], 0)
    ensures ReplaceMatches(s, [m], 0, TsconfigHandler) == "configs/configs/tsconfig.json"
    ensures ReplaceMatches(s, [m], 0, CorrectedHandler) == "configs/tsconfig.json"
  {
    InPathAsWritten(s, m);
    InPathCorrected(s, m);
  }

  /** The match the anchored filename pattern reports for
      `tsconfig.app.yml`: the whole name, with basename `tsconfig.app`,
      prefix `tsconfig` and separator `.`. */
  function FilenameMatch(): Match
  {
    Match(0, "tsconfig.app.yml",
      [None, Some("tsconfig.app"), Some("tsconfig"), Some("."), Some("."), Some("yml")],
      Some(map["dot" := Undefined, "basename" := Str("tsconfig.app"), "tsconfig" := Str("tsconfig"),
               "tsconfig_sep" := Str("."), "ext_dot" := Str("."), "ext" := Str("yml")]))
  }

  /** A single match that occurs where it says is a valid match list. */
  lemma SingleMatchValid(s: string, m: Match)
    requires OccursAt(s, m.text, m.offset)
    ensures ValidMatches(s, [m], 0)
  {
    assert [m][1..] == [];
  }

  lemma FilenameGroups(p: ReplacerParameters)
    requires p == MatchParameters(FilenameMatch(), "tsconfig.app.yml")
    ensures HasBasename(p)
    ensures Basename(p) == "tsconfig.app" && TsconfigGroup(p) == "tsconfig" && Separator(p) == "."
  {
  }

  lemma FilenameMatchFits(s: string, m: Match)
    requires s == "tsconfig.app.yml" && m == FilenameMatch()
    ensures ValidMatches(s, [m], 0)
    ensures HasBasename(MatchParameters(m, s))
    ensures var p := MatchParameters(m, s);
      Replacement(Basename(p), TsconfigGroup(p), Separator(p)) == "tsconfig.app.json"
  {
    assert s[0..|s|] == s;
    SingleMatchValid(s, m);
    FilenameGroups(MatchParameters(m, s));
    PrefixIsStripped("tsconfig", ".", "app");
    assert "tsconfig" + "." + "app" == "tsconfig.app";
  }

  /** The output file name for an input file name: the whole name is the
      match, so the result is the canonical name. `tsconfig.app.yml`
      becomes `tsconfig.app.json`. */
  lemma FilenameExample(s: string, m: Match)
    requires s == "tsconfig.app.yml" && m == FilenameMatch()
    ensures ValidMatches(s, [m], 0)
    ensures ReplaceMatches(s, [m], 0, TsconfigHandler) == "tsconfig.app.json"
  {
    FilenameMatchFits(s, m);
    var p := MatchParameters(m, s);
    var r := Replacement(Basename(p), TsconfigGroup(p), Separator(p));
    assert m.offset == 0 && m.text == s;
    assert TsconfigHandler(p) == r by {
      HandlerRewritesWholeString(p);
      assert s[..0] == [] && s[|s|..] == [];
    }
    assert ReplaceMatches(s, [m], 0, TsconfigHandler) == TsconfigHandler(p) by {
      ReplaceOneMatch(s, m, TsconfigHandler);
      assert s[..0] == [] && s[|s|..] == [];
    }
  }
}
