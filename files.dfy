/** The filename and string-transformation helpers of the file pipeline
    (src/.dev/common/files.ts): the extension matcher, the YAML filter,
    the replacer-argument handler, the string transformer, the stringify
    replacer, `escapeRegExp` and the extension-swapping filename
    transformer. Regular-expression matching itself is not modelled: the
    matches a pattern finds in a string are an input. */
module Files {
  import opened Js
  import opened JsStrings
  import opened Path

  const DOT: string := "."
  const YamlExt: seq<string> := [".yml", ".yaml"]
  const JsonExt: string := ".json"
  const NoExtensionMessage: string := "Please provide an extension"

  // ---------------------------------------------------------------------
  // Directory entries and extensions

  datatype EntryKind = File | Directory | SymbolicLink | OtherKind

  /** A directory entry (`fs.Dirent`): its name and what it is. */
  datatype Dirent = Dirent(name: string, kind: EntryKind)
  {
    predicate IsFile() { kind == File }
  }

  /** The `filename` argument of `hasExtension`: a name or a directory entry. */
  datatype FilenameArg = Name(name: string) | Entry(entry: Dirent)
  {
    function NameOf(): string
    {
      match this
      case Name(n) => n
      case Entry(e) => e.name
    }
  }

  /** A `string | string[]` extension argument. */
  datatype ExtensionArg = Single(ext: string) | AnyOf(exts: seq<string>)

  /** `name` is at least one character longer than `suffix` and ends with it. */
  predicate HasProperSuffix(name: string, suffix: string)
  {
    |name| > |suffix| && EndsWith(name, suffix)
  }

  /** The extension with its leading dot, added when it is missing. */
  function WithDot(ext: string): string
  {
    if StartsWith(ext, DOT) then ext else DOT + ext
  }

  /** The meaning of "`name` has extension `ext`": a usable extension that,
      with its dot, is exactly the last extension of the name. */
  predicate ExtensionMatches(name: string, ext: string)
  {
    ext != "" && ext != DOT && ExtName(name) == WithDot(ext)
  }

  predicate MatchesSome(name: string, extension: ExtensionArg)
  {
    match extension
    case Single(ext) => ExtensionMatches(name, ext)
    case AnyOf(exts) => exists i :: 0 <= i < |exts| && ExtensionMatches(name, exts[i])
  }

  /** The single-extension case of `hasExtension`. */
  function MatchSingle(name: string, ext: string, recursing: bool): (r: Result<bool>)
    ensures r.Throw? <==> (ext == "" || ext == DOT) && !recursing
    ensures r.Throw? ==> r.error == TypeError(NoExtensionMessage)
    ensures r.Ok? ==> (r.value <==> ExtensionMatches(name, ext))
  {
    if ext == "" || ext == DOT then
      if recursing then Ok(false) else Throw(TypeError(NoExtensionMessage))
    else
      Ok(ExtName(name) == WithDot(ext))
  }

  /** `extension.some(...)` over an array of extensions, each checked as a
      recursive call. */
  function AnyMatch(name: string, exts: seq<string>): (r: bool)
    ensures r <==> exists i :: 0 <= i < |exts| && ExtensionMatches(name, exts[i])
  {
    if |exts| == 0 then
      false
    else if MatchSingle(name, exts[0], true) == Ok(true) then
      true
    else
      var rest := AnyMatch(name, exts[1..]);
      assert forall i :: 1 <= i < |exts| ==> exts[i] == exts[1..][i - 1];
      rest
  }

  /** `hasExtension({ filename, extension, recursing })`. A directory entry
      stands for its name (and the call made for it drops the recursion
      marker); an array matches when any of its members does; an empty
      extension or a lone `.` throws a `TypeError` when it is passed
      directly and is simply no match inside an array. */
  function HasExtension(filename: FilenameArg, extension: ExtensionArg, recursing: bool): (r: Result<bool>)
    ensures r.Throw? <==>
      extension.Single? && (extension.ext == "" || extension.ext == DOT) && (filename.Entry? || !recursing)
    ensures r.Throw? ==> r.error == TypeError(NoExtensionMessage)
    ensures r.Ok? ==> (r.value <==> MatchesSome(filename.NameOf(), extension))
    decreases if filename.Entry? then 1 else 0
  {
    match filename
    case Entry(e) => HasExtension(Name(e.name), extension, false)
    case Name(n) =>
      match extension
      case AnyOf(exts) => Ok(AnyMatch(n, exts))
      case Single(ext) => MatchSingle(n, ext, recursing)
  }

  /** A single extension that holds exactly one `.`, given with or without
      it, matches exactly the names that end with it (dot included) after
      at least one other character: the comparison is exact and
      case-sensitive, and only the last extension of the name counts. */
  lemma HasExtensionBySuffix(filename: FilenameArg, ext: string, recursing: bool)
    requires ext != "" && ext != DOT
    requires forall k :: 1 <= k < |WithDot(ext)| ==> WithDot(ext)[k] != '.'
    ensures HasExtension(filename, Single(ext), recursing) == Ok(HasProperSuffix(filename.NameOf(), WithDot(ext)))
  {
    var e := WithDot(ext);
    if StartsWith(ext, DOT) {
      assert |ext| >= 2 && e[0] == '.';
    } else {
      assert e[0] == '.' && |e| >= 2;
    }
    ExtNameIs(filename.NameOf(), e);
  }

  /** The leading dot is optional: `yml` and `.yml` give the same answer. */
  lemma DotIsOptional(filename: FilenameArg, ext: string, recursing: bool)
    requires ext != "" && !StartsWith(ext, DOT)
    ensures HasExtension(filename, Single(ext), recursing) == HasExtension(filename, Single(DOT + ext), recursing)
  {
    assert StartsWith(DOT + ext, DOT);
    assert DOT + ext != DOT;
  }

  lemma YmlHasOneDot()
    ensures forall k :: 1 <= k < |WithDot(".yml")| ==> WithDot(".yml")[k] != '.'
  {
    assert WithDot(".yml") == ".yml";
  }

  /** A name whose last character is not `l` does not have extension `.yml`. */
  lemma LastCharRulesOutYml(name: string)
    requires |name| > 0 && name[|name| - 1] != 'l'
    ensures HasExtension(Name(name), Single(".yml"), false) == Ok(false)
  {
    YmlHasOneDot();
    HasExtensionBySuffix(Name(name), ".yml", false);
    if |name| >= 4 {
      assert name[|name| - 4..][3] == name[|name| - 1];
    }
  }

  lemma TrailingExtensionHides(name: string)
    requires name == "a.yml.bak"
    ensures HasExtension(Name(name), Single(".yml"), false) == Ok(false)
  {
    assert name[|name| - 1] == 'k';
    LastCharRulesOutYml(name);
  }

  lemma CaseDiffers(name: string)
    requires name == "a.YML"
    ensures HasExtension(Name(name), Single(".yml"), false) == Ok(false)
  {
    assert name[|name| - 1] == 'L';
    LastCharRulesOutYml(name);
  }

  lemma DotfileHasNoExtension(name: string)
    requires name == ".yml"
    ensures HasExtension(Name(name), Single(".yml"), false) == Ok(false)
  {
    YmlHasOneDot();
    HasExtensionBySuffix(Name(name), ".yml", false);
  }

  /** Matching is exact: a trailing extension after `.yml`, a different
      case and a dotfile named `.yml` all fail to match `.yml`. */
  lemma OnlyTheLastExtensionCounts()
    ensures HasExtension(Name("a.yml.bak"), Single(".yml"), false) == Ok(false)
    ensures HasExtension(Name("a.YML"), Single(".yml"), false) == Ok(false)
    ensures HasExtension(Name(".yml"), Single(".yml"), false) == Ok(false)
  {
    TrailingExtensionHides("a.yml.bak");
    CaseDiffers("a.YML");
    DotfileHasNoExtension(".yml");
  }

  /** An empty extension is an error when passed directly and no match
      inside an array, so `['', '.yml']` is a legal argument. */
  lemma EmptyExtensionInArray()
    ensures HasExtension(Name("a.yml"), Single(""), false) == Throw(TypeError(NoExtensionMessage))
    ensures HasExtension(Name("a.yml"), AnyOf(["", ".yml"]), false) == Ok(true)
  {
    assert forall k :: 1 <= k < |".yml"| ==> ".yml"[k] != '.';
    HasExtensionBySuffix(Name("a.yml"), ".yml", true);
    assert "a.yml"[1..] == ".yml";
    assert ExtensionMatches("a.yml", ["", ".yml"][1]);
  }

  /** A name has one of the YAML extensions iff it ends in `.yml` or
      `.yaml` after at least one other character. */
  lemma YamlExtensions(name: string)
    ensures MatchesSome(name, AnyOf(YamlExt)) <==> HasProperSuffix(name, ".yml") || HasProperSuffix(name, ".yaml")
  {
    DottedExtensionMatches(name, ".yml");
    DottedExtensionMatches(name, ".yaml");
    MatchesEitherOfTwo(name, ".yml", ".yaml");
  }

  lemma MatchesEitherOfTwo(name: string, a: string, b: string)
    ensures MatchesSome(name, AnyOf([a, b])) <==> ExtensionMatches(name, a) || ExtensionMatches(name, b)
  {
    var exts := [a, b];
    if MatchesSome(name, AnyOf(exts)) {
      var i :| 0 <= i < |exts| && ExtensionMatches(name, exts[i]);
      assert i == 0 || i == 1;
    }
    assert exts[0] == a && exts[1] == b;
  }

  /** An extension given with its one `.` matches the names that end with
      it after at least one other character. */
  lemma DottedExtensionMatches(name: string, ext: string)
    requires |ext| >= 2 && ext[0] == '.'
    requires forall k :: 1 <= k < |ext| ==> ext[k] != '.'
    ensures ExtensionMatches(name, ext) <==> HasProperSuffix(name, ext)
  {
    assert StartsWith(ext, DOT) by {
      assert ext[..1] == [ext[0]];
    }
    ExtNameIs(name, ext);
  }

  /** `isYAMLFile(file)`: a regular file whose last extension is exactly
      `.yml` or `.yaml`. */
  function IsYAMLFile(file: Dirent): (r: bool)
    ensures r <==> file.IsFile() && (HasProperSuffix(file.name, ".yml") || HasProperSuffix(file.name, ".yaml"))
  {
    YamlExtensions(file.name);
    file.IsFile() && HasExtension(Entry(file), AnyOf(YamlExt), false).value
  }

  // ---------------------------------------------------------------------
  // Replacer functions

  /** One match of a regular expression, as `replace` reports it: where it
      starts, the matched text, the positional captures (absent when a
      group took no part) and, when the pattern has named groups, the
      groups object. */
  datatype Match = Match(offset: nat, text: string, captures: seq<Option<string>>, groups: Option<map<string, JsValue>>)

  /** The arguments `String.prototype.replace` passes to a replacer
      function for match `m` of `whole`: the matched text, the captures,
      the offset, the whole string and, only for a pattern with named
      groups, the groups object. */
  function ReplacerArguments(m: Match, whole: string): seq<JsValue>
  {
    [Str(m.text)] + CaptureArguments(m) + [Int(m.offset), Str(whole)]
    + (if m.groups.Some? then [Object(m.groups.value)] else [])
  }

  /** The record the parameter handler builds, field for field, holding
      whatever values the three `pop()` calls and the copy produced. */
  datatype HandledParameters = HandledParameters(
    groups: JsValue, wholeString: JsValue, offset: JsValue, matches: seq<JsValue>, wholeMatch: JsValue)

  /** `Array.prototype.pop`: the last element (`undefined` for an empty
      array) and what remains. */
  function Pop(a: seq<JsValue>): (JsValue, seq<JsValue>)
  {
    if |a| == 0 then (Undefined, a) else (a[|a| - 1], a[..|a| - 1])
  }

  /** What `regexpReplacerParameterHandler` computes, by position: the last
      three arguments are taken as groups, whole string and offset, and the
      rest are the matches, the first of which is the whole match. */
  function PoppedParameters(parameters: seq<JsValue>): (r: HandledParameters)
    ensures |parameters| >= 3 ==> r.matches + [r.offset, r.wholeString, r.groups] == parameters
    ensures |parameters| >= 4 ==> r.wholeMatch == parameters[0]
    ensures |parameters| < 4 ==> r.matches == [] && r.wholeMatch == Undefined
    ensures |parameters| == 2 ==> r.groups == parameters[1] && r.wholeString == parameters[0] && r.offset == Undefined
    ensures |parameters| == 1 ==> r.groups == parameters[0] && r.wholeString == Undefined && r.offset == Undefined
    ensures |parameters| == 0 ==> r.groups == Undefined && r.wholeString == Undefined && r.offset == Undefined
  {
    var n := |parameters|;
    if n >= 3 then
      assert parameters[..n - 3] + [parameters[n - 3], parameters[n - 2], parameters[n - 1]] == parameters;
      HandledParameters(
        parameters[n - 1], parameters[n - 2], parameters[n - 3], parameters[..n - 3],
        if n >= 4 then parameters[0] else Undefined)
    else
      HandledParameters(
        if n >= 1 then parameters[n - 1] else Undefined,
        if n >= 2 then parameters[n - 2] else Undefined,
        Undefined, [], Undefined)
  }

  /** `regexpReplacerParameterHandler(...parameters)`, popping the groups,
      the whole string and the offset off the argument array in turn. */
  method RegexpReplacerParameterHandler(parameters: seq<JsValue>) returns (handled: HandledParameters)
    ensures handled == PoppedParameters(parameters)
  {
    var rest := parameters;
    var groups, wholeString, offset;
    groups, rest := Pop(rest).0, Pop(rest).1;
    wholeString, rest := Pop(rest).0, Pop(rest).1;
    offset, rest := Pop(rest).0, Pop(rest).1;
    var matches := rest;
    var wholeMatch := if |matches| > 0 then matches[0] else Undefined;
    handled := HandledParameters(groups, wholeString, offset, matches, wholeMatch);
  }

  /** For a pattern with named groups the handler recovers every part of
      the call. */
  lemma PoppedWithNamedGroups(m: Match, whole: string)
    requires m.groups.Some?
    ensures var p, q := PoppedParameters(ReplacerArguments(m, whole)), MatchParameters(m, whole);
      p.groups == q.groups && p.wholeString == Str(q.wholeString) && p.offset == Int(q.offset)
      && p.matches == q.matches && p.wholeMatch == q.wholeMatch
  {
    var args := ReplacerArguments(m, whole);
    assert args[..|args| - 3] == [Str(m.text)] + CaptureArguments(m);
  }

  /** For a pattern without named groups `replace` passes no groups object,
      yet the handler still pops three values: the whole string lands in
      `groups`, the offset in `wholeString`, and the last capture (or the
      matched text) in `offset`. */
  lemma PoppedWithoutNamedGroups(m: Match, whole: string)
    requires m.groups.None?
    ensures var p := PoppedParameters(ReplacerArguments(m, whole));
      p.groups == Str(whole) && p.wholeString == Int(m.offset)
      && p.offset == (if |m.captures| > 0 then CaptureValue(m.captures[|m.captures| - 1]) else Str(m.text))
      && |p.matches| == |m.captures|
  {
    var args := ReplacerArguments(m, whole);
    assert |args| == |m.captures| + 3;
    if |m.captures| > 0 {
      assert args[|args| - 3] == CaptureArguments(m)[|m.captures| - 1];
    }
  }

  /** The smallest such call: `"xa".replace(/a/, replacer)`. */
  lemma MisassignedWithoutNamedGroups()
    ensures PoppedParameters([Str("a"), Int(1), Str("xa")]) ==
      HandledParameters(Str("xa"), Int(1), Str("a"), [], Undefined)
    ensures [Str("a"), Int(1), Str("xa")] == ReplacerArguments(Match(1, "a", [], None), "xa")
  {
  }

  function CaptureArguments(m: Match): seq<JsValue>
  {
    seq(|m.captures|, k requires 0 <= k < |m.captures| => CaptureValue(m.captures[k]))
  }

  /** The record a handler is meant to receive for match `m` of `whole`
      (the `IRegExpReplacerHandledParameters` interface, files.ts:41-47). */
  datatype ReplacerParameters = ReplacerParameters(
    groups: JsValue, wholeString: string, offset: int, matches: seq<JsValue>, wholeMatch: JsValue)

  function MatchParameters(m: Match, whole: string): ReplacerParameters
  {
    ReplacerParameters(
      if m.groups.Some? then Object(m.groups.value) else Undefined,
      whole, m.offset, [Str(m.text)] + CaptureArguments(m), Str(m.text))
  }

  /** The corrected handler: the groups object is popped only when the last
      argument is one, as `replace` passes it only for patterns with named
      groups. `None` for an argument list `replace` never produces. */
  function SplitReplacerArguments(args: seq<JsValue>): (r: Option<ReplacerParameters>)
    ensures r.Some? ==> |args| >= 3 && |r.value.matches| <= |args| && r.value.matches == args[..|r.value.matches|]
    ensures r.Some? ==> r.value.wholeMatch == args[0]
  {
    var named := |args| >= 1 && args[|args| - 1].Object?;
    var k := if named then 1 else 0;
    if |args| < 3 + k then
      None
    else
      var whole, offset := args[|args| - 1 - k], args[|args| - 2 - k];
      if whole.Str? && offset.Int? then
        Some(ReplacerParameters(
          if named then args[|args| - 1] else Undefined,
          whole.s, offset.i, args[..|args| - 2 - k], args[0]))
      else
        None
  }

  /** Round trip: the corrected handler recovers every part of every call
      `replace` makes, with or without named groups. */
  lemma {:induction false} SplitRecoversMatch(m: Match, whole: string)
    ensures SplitReplacerArguments(ReplacerArguments(m, whole)) == Some(MatchParameters(m, whole))
  {
    var args := ReplacerArguments(m, whole);
    var c := CaptureArguments(m);
    assert args == [Str(m.text)] + c + [Int(m.offset), Str(whole)]
      + (if m.groups.Some? then [Object(m.groups.value)] else []);
    if m.groups.Some? {
      assert args[|args| - 1] == Object(m.groups.value);
      assert args[..|args| - 3] == [Str(m.text)] + c;
    } else {
      assert args[|args| - 1] == Str(whole);
      assert args[..|args| - 2] == [Str(m.text)] + c;
    }
  }

  // ---------------------------------------------------------------------
  // Replacing the matches of a pattern

  /** `ms` are matches in `s`, in order and without overlap, none starting
      before `from`: what a regular expression reports. */
  predicate ValidMatches(s: string, ms: seq<Match>, from: nat)
    decreases |ms|
  {
    if |ms| == 0 then
      from <= |s|
    else
      from <= ms[0].offset && OccursAt(s, ms[0].text, ms[0].offset)
      && ValidMatches(s, ms[1..], ms[0].offset + |ms[0].text|)
  }

  /** `s.replace(regexp, replacer)` from position `from` on, where `ms` are
      the matches of `regexp`: the text between matches is kept and each
      match is replaced by what the handler returns for its parameters. */
  function ReplaceMatches(s: string, ms: seq<Match>, from: nat, handler: ReplacerParameters -> string): (r: string)
    requires ValidMatches(s, ms, from)
    ensures |ms| == 0 ==> r == s[from..]
    ensures |ms| > 0 ==> StartsWith(r, s[from..ms[0].offset] + handler(MatchParameters(ms[0], s)))
    decreases |ms|
  {
    if |ms| == 0 then
      s[from..]
    else
      s[from..ms[0].offset] + handler(MatchParameters(ms[0], s))
      + ReplaceMatches(s, ms[1..], ms[0].offset + |ms[0].text|, handler)
  }

  /** A single match is replaced in place and the text around it is kept. */
  lemma ReplaceOneMatch(s: string, m: Match, handler: ReplacerParameters -> string)
    requires ValidMatches(s, [m], 0)
    ensures ReplaceMatches(s, [m], 0, handler) ==
      s[..m.offset] + handler(MatchParameters(m, s)) + s[m.offset + |m.text|..]
  {
    assert [m][1..] == [];
  }

  /** Where match `m` ends. */
  function MatchEnd(m: Match): nat
  {
    m.offset + |m.text|
  }

  /** Where the text before match `i` starts: `from` for the first match,
      the end of the previous match for the others; for `i == |ms|`, where
      the text after the last match starts. */
  function GapStart(ms: seq<Match>, from: nat, i: nat): nat
    requires i <= |ms|
  {
    if i == 0 then from else MatchEnd(ms[i - 1])
  }

  /** `s[a..b]`, and the empty string for indices out of order or range. */
  function Slice(s: string, a: nat, b: nat): string
  {
    if a <= b <= |s| then s[a..b] else []
  }

  function Concat(parts: seq<string>): string
  {
    if |parts| == 0 then [] else parts[0] + Concat(parts[1..])
  }

  /** For each match, the text between it and the previous one followed by
      the handler's result for it. */
  function Pieces(s: string, ms: seq<Match>, from: nat, handler: ReplacerParameters -> string): (r: seq<string>)
    ensures |r| == |ms|
  {
    seq(|ms|, i requires 0 <= i < |ms| =>
      Slice(s, GapStart(ms, from, i), ms[i].offset) + handler(MatchParameters(ms[i], s)))
  }

  /** What `replace` produces: the pieces in order, then the text after the
      last match. */
  function Replaced(s: string, ms: seq<Match>, from: nat, handler: ReplacerParameters -> string): string
  {
    Concat(Pieces(s, ms, from, handler)) + Slice(s, GapStart(ms, from, |ms|), |s|)
  }

  /** Dropping the first match shifts the pieces by one. */
  lemma PiecesShift(s: string, ms: seq<Match>, from: nat, handler: ReplacerParameters -> string)
    requires |ms| > 0
    ensures Pieces(s, ms, from, handler)[1..] == Pieces(s, ms[1..], MatchEnd(ms[0]), handler)
    ensures GapStart(ms[1..], MatchEnd(ms[0]), |ms| - 1) == GapStart(ms, from, |ms|)
  {
    var p, q := Pieces(s, ms, from, handler), Pieces(s, ms[1..], MatchEnd(ms[0]), handler);
    forall i | 0 <= i < |ms| - 1 ensures p[1..][i] == q[i] {
      assert GapStart(ms[1..], MatchEnd(ms[0]), i) == GapStart(ms, from, i + 1);
      assert ms[1..][i] == ms[i + 1];
    }
  }

  lemma ReplacedStep(s: string, ms: seq<Match>, from: nat, handler: ReplacerParameters -> string)
    requires |ms| > 0 && from <= ms[0].offset && MatchEnd(ms[0]) <= |s|
    ensures Replaced(s, ms, from, handler) ==
      s[from..ms[0].offset] + handler(MatchParameters(ms[0], s)) + Replaced(s, ms[1..], MatchEnd(ms[0]), handler)
  {
    var p := Pieces(s, ms, from, handler);
    PiecesShift(s, ms, from, handler);
    assert p[0] == s[from..ms[0].offset] + handler(MatchParameters(ms[0], s));
    assert Concat(p) == p[0] + Concat(p[1..]);
  }

  /** The matches after the first are valid from where the first ends. */
  lemma ValidTail(s: string, ms: seq<Match>, from: nat)
    requires |ms| > 0 && ValidMatches(s, ms, from)
    ensures from <= ms[0].offset && MatchEnd(ms[0]) <= |s| && s[ms[0].offset..MatchEnd(ms[0])] == ms[0].text
    ensures ValidMatches(s, ms[1..], MatchEnd(ms[0]))
  {
  }

  lemma ReplaceMatchesStep(s: string, ms: seq<Match>, from: nat, handler: ReplacerParameters -> string)
    requires |ms| > 0 && ValidMatches(s, ms, from)
    ensures ValidMatches(s, ms[1..], MatchEnd(ms[0]))
    ensures ReplaceMatches(s, ms, from, handler) ==
      s[from..ms[0].offset] + handler(MatchParameters(ms[0], s)) + ReplaceMatches(s, ms[1..], MatchEnd(ms[0]), handler)
  {
    ValidTail(s, ms, from);
    assert MatchEnd(ms[0]) == ms[0].offset + |ms[0].text|;
  }

  /** A handler that gives back each matched text leaves the string as it
      was. */
  lemma {:induction false} MatchedTextIsIdentity(s: string, ms: seq<Match>, from: nat, handler: ReplacerParameters -> string)
    requires ValidMatches(s, ms, from)
    requires forall i :: 0 <= i < |ms| ==> handler(MatchParameters(ms[i], s)) == ms[i].text
    ensures ReplaceMatches(s, ms, from, handler) == s[from..]
    decreases |ms|
  {
    if |ms| > 0 {
      var m := ms[0];
      ValidTail(s, ms, from);
      ReplaceMatchesStep(s, ms, from, handler);
      assert forall i :: 0 <= i < |ms| - 1 ==> ms[1..][i] == ms[i + 1];
      MatchedTextIsIdentity(s, ms[1..], MatchEnd(m), handler);
      assert s[from..] == s[from..m.offset] + s[m.offset..MatchEnd(m)] + s[MatchEnd(m)..];
    }
  }

  /** Every match is replaced, left to right, and all the text between,
      before and after the matches is kept in order. */
  lemma {:induction false} ReplaceMatchesIsConcatenation(s: string, ms: seq<Match>, from: nat, handler: ReplacerParameters -> string)
    requires ValidMatches(s, ms, from)
    ensures ReplaceMatches(s, ms, from, handler) == Replaced(s, ms, from, handler)
    decreases |ms|
  {
    if |ms| == 0 {
      assert Concat(Pieces(s, ms, from, handler)) == [];
      assert Replaced(s, ms, from, handler) == s[from..];
    } else {
      var m := ms[0];
      ValidTail(s, ms, from);
      ReplaceMatchesIsConcatenation(s, ms[1..], MatchEnd(m), handler);
      ReplacedStep(s, ms, from, handler);
      ReplaceMatchesStep(s, ms, from, handler);
    }
  }

  /** The matches a regular expression finds in a string. */
  type Pattern = string -> seq<Match>

  /** A `string | string[]` argument or result. */
  datatype Text = One(s: string) | Many(ss: seq<string>)

  predicate PatternFits(regexp: Pattern, input: Text)
  {
    match input
    case One(s) => ValidMatches(s, regexp(s), 0)
    case Many(ss) => forall i :: 0 <= i < |ss| ==> ValidMatches(ss[i], regexp(ss[i]), 0)
  }

  /** The transformer `getStringTransformer(handler)` returns: a string is
      rewritten by `replace`, an array is mapped element by element through
      the transformer itself. */
  function StringTransform(handler: ReplacerParameters -> string, regexp: Pattern, input: Text): (r: Text)
    requires PatternFits(regexp, input)
    ensures r.One? <==> input.One?
    ensures input.One? ==> r == One(ReplaceMatches(input.s, regexp(input.s), 0, handler))
    ensures input.Many? ==> |r.ss| == |input.ss|
    ensures input.Many? ==> forall i :: 0 <= i < |input.ss| ==>
      r.ss[i] == ReplaceMatches(input.ss[i], regexp(input.ss[i]), 0, handler)
    decreases if input.Many? then 1 else 0
  {
    match input
    case One(s) => One(ReplaceMatches(s, regexp(s), 0, handler))
    case Many(ss) =>
      Many(seq(|ss|, i requires 0 <= i < |ss| => StringTransform(handler, regexp, One(ss[i])).s))
  }

  /** A string without matches comes back unchanged. */
  lemma NoMatchIsIdentity(handler: ReplacerParameters -> string, regexp: Pattern, s: string)
    requires regexp(s) == []
    ensures StringTransform(handler, regexp, One(s)) == One(s)
  {
  }

  /** Transforming an array commutes with splitting it: order and length are
      kept and each element is transformed on its own. */
  lemma TransformConcat(handler: ReplacerParameters -> string, regexp: Pattern, a: seq<string>, b: seq<string>)
    requires PatternFits(regexp, Many(a)) && PatternFits(regexp, Many(b))
    ensures PatternFits(regexp, Many(a + b))
    ensures StringTransform(handler, regexp, Many(a + b)).ss ==
      StringTransform(handler, regexp, Many(a)).ss + StringTransform(handler, regexp, Many(b)).ss
  {
    assert forall i :: 0 <= i < |a + b| ==> (a + b)[i] == if i < |a| then a[i] else b[i - |a|];
  }

  // ---------------------------------------------------------------------
  // Stringify replacers

  /** The replacer `getStringifyReplacer(transformer, regexp)` returns:
      string values go through the transformer, all others are returned
      as they are, and the key plays no part. */
  function StringifyReplacer(transformer: (Pattern, string) -> string, regexp: Pattern, key: string, value: JsValue): (r: JsValue)
    ensures !value.Str? ==> r == value
    ensures value.Str? ==> r == Str(transformer(regexp, value.s))
  {
    if value.Str? then Str(transformer(regexp, value.s)) else value
  }

  /** The key plays no part: two keys give the same result for a value. */
  lemma StringifyIgnoresKey(transformer: (Pattern, string) -> string, regexp: Pattern, k1: string, k2: string, value: JsValue)
    ensures StringifyReplacer(transformer, regexp, k1, value) == StringifyReplacer(transformer, regexp, k2, value)
  {
  }

  /** `getSecondParam(arg0, arg1, ...)`: the second argument, or
      `undefined` when there is none. */
  function GetSecondParam(args: seq<JsValue>): (r: JsValue)
    ensures |args| < 2 ==> r == Undefined
    ensures |args| >= 2 ==> r == args[1]
  {
    if |args| >= 2 then args[1] else Undefined
  }

  /** Used as a stringify replacer (as the `.npsrc` script does),
      `getSecondParam` is the replacer of a transformer that changes
      nothing: every value is kept. */
  lemma SecondParamIsIdentityReplacer(regexp: Pattern, key: string, value: JsValue)
    ensures GetSecondParam([Str(key), value]) == value
    ensures GetSecondParam([Str(key), value]) == StringifyReplacer((re: Pattern, s: string) => s, regexp, key, value)
  {
  }

  // ---------------------------------------------------------------------
  // escapeRegExp

  /** The characters `escapeRegExp` escapes. */
  const RegExpSpecials: string := ".*+-?^${}()|[]\\"

  predicate IsRegExpSpecial(c: char)
  {
    c in RegExpSpecials
  }

  function CountSpecials(s: string): nat
  {
    if |s| == 0 then 0 else (if IsRegExpSpecial(s[0]) then 1 else 0) + CountSpecials(s[1..])
  }

  /** `escapeRegExp(s)`: a backslash before every special character. */
  function EscapeRegExp(s: string): (r: string)
    ensures |r| == |s| + CountSpecials(s)
    ensures IsLiteralPattern(r)
  {
    if |s| == 0 then
      ""
    else
      var head := if IsRegExpSpecial(s[0]) then ['\\', s[0]] else [s[0]];
      var tail := EscapeRegExp(s[1..]);
      assert (head + tail)[|head|..] == tail;
      head + tail
  }

  /** A pattern made of ordinary characters and escaped special characters
      only, so that it matches exactly its unescaped text. */
  predicate IsLiteralPattern(t: string)
    decreases |t|
  {
    if |t| == 0 then true
    else if t[0] == '\\' then |t| >= 2 && IsRegExpSpecial(t[1]) && IsLiteralPattern(t[2..])
    else !IsRegExpSpecial(t[0]) && IsLiteralPattern(t[1..])
  }

  /** Drops the backslash in front of each escaped character. */
  function Unescape(t: string): string
    decreases |t|
  {
    if |t| == 0 then ""
    else if t[0] == '\\' && |t| >= 2 then [t[1]] + Unescape(t[2..])
    else [t[0]] + Unescape(t[1..])
  }

  /** Removing the inserted backslashes gives back the input. */
  lemma {:induction false} UnescapeEscape(s: string)
    ensures Unescape(EscapeRegExp(s)) == s
    decreases |s|
  {
    if |s| > 0 {
      UnescapeEscape(s[1..]);
      var t := EscapeRegExp(s);
      if IsRegExpSpecial(s[0]) {
        assert t[2..] == EscapeRegExp(s[1..]);
      } else {
        assert s[0] != '\\';
        assert t[1..] == EscapeRegExp(s[1..]);
      }
      assert [s[0]] + s[1..] == s;
    }
  }

  // ---------------------------------------------------------------------
  // Filename transformers

  function UnrecognizedExtensionMessage(name: string, exts: seq<string>): string
  {
    "Filename " + name + " does not end with any extension given in array " + Join(exts, ",")
  }

  /** `oldExt.find((ext) => name.endsWith(ext))`, as an index. */
  function FindSuffix(name: string, exts: seq<string>): (r: Option<nat>)
    ensures r.Some? ==> r.value < |exts| && EndsWith(name, exts[r.value])
    ensures r.Some? ==> forall j :: 0 <= j < r.value ==> !EndsWith(name, exts[j])
    ensures r.None? ==> forall j :: 0 <= j < |exts| ==> !EndsWith(name, exts[j])
  {
    if |exts| == 0 then None
    else if EndsWith(name, exts[0]) then Some(0)
    else
      var rest := FindSuffix(name, exts[1..]);
      assert forall j :: 1 <= j < |exts| ==> exts[j] == exts[1..][j - 1];
      match rest
      case None => None
      case Some(i) => Some(i + 1)
  }

  /** `defaultFilenameTransformer(name, oldExt, newExt)`. With an array, the
      first listed extension the name ends with is used, and an `Error` is
      thrown when there is none; with a string, `name.replace(new
      RegExp(escapeRegExp(oldExt)), newExt)` replaces the first literal
      occurrence of it (the escaped pattern is literal, see
      `EscapeRegExp`). */
  function DefaultFilenameTransformer(name: string, oldExt: ExtensionArg, newExt: string): (r: Result<string>)
    ensures r.Throw? <==> oldExt.AnyOf? && FindSuffix(name, oldExt.exts).None?
    ensures r.Throw? ==> oldExt.AnyOf? && r.error == Error(UnrecognizedExtensionMessage(name, oldExt.exts))
    ensures r.Ok? && oldExt.AnyOf? ==>
      r.value == ReplaceFirst(name, oldExt.exts[FindSuffix(name, oldExt.exts).value], newExt)
    decreases if oldExt.AnyOf? then 1 else 0
  {
    match oldExt
    case AnyOf(exts) =>
      (match FindSuffix(name, exts)
       case None => Throw(Error(UnrecognizedExtensionMessage(name, exts)))
       case Some(i) => DefaultFilenameTransformer(name, Single(exts[i]), newExt))
    case Single(ext) => Ok(ReplaceFirst(name, ext, newExt))
  }

  /** With an array, the transformer throws exactly when no listed
      extension ends the name; otherwise it renames with the first listed
      extension that does. */
  lemma RenameWithFirstEndingExtension(name: string, exts: seq<string>, newExt: string)
    ensures DefaultFilenameTransformer(name, AnyOf(exts), newExt).Throw? <==>
      forall j :: 0 <= j < |exts| ==> !EndsWith(name, exts[j])
    ensures DefaultFilenameTransformer(name, AnyOf(exts), newExt).Ok? ==>
      exists i :: 0 <= i < |exts| && EndsWith(name, exts[i])
        && (forall j :: 0 <= j < i ==> !EndsWith(name, exts[j]))
        && DefaultFilenameTransformer(name, AnyOf(exts), newExt).value == ReplaceFirst(name, exts[i], newExt)
  {
    match FindSuffix(name, exts)
    case None =>
    case Some(i) =>
      assert 0 <= i < |exts| && EndsWith(name, exts[i]);
  }

  /** With a single extension and a `$`-free new extension, the first
      occurrence of the old extension, wherever it is, becomes the new one. */
  lemma RenameFirstOccurrence(name: string, oldExt: string, newExt: string, i: nat)
    requires '$' !in newExt
    requires IndexOf(name, oldExt) == Some(i)
    ensures DefaultFilenameTransformer(name, Single(oldExt), newExt) == Ok(name[..i] + newExt + name[i + |oldExt|..])
  {
    ReplaceFirstLiteral(name, oldExt, newExt, i);
  }

  /** A name in which the old extension does not occur is returned unchanged. */
  lemma RenameWithoutOccurrence(name: string, oldExt: string, newExt: string)
    requires forall j :: 0 <= j <= |name| ==> !OccursAt(name, oldExt, j)
    ensures DefaultFilenameTransformer(name, Single(oldExt), newExt) == Ok(name)
  {
  }

  /** Swapping an extension and swapping it back restores the name when
      each extension occurs first at the end of the name. */
  lemma RenameRoundTrip(stem: string, a: string, b: string)
    requires '$' !in a && '$' !in b
    requires IndexOf(stem + a, a) == Some(|stem|)
    requires IndexOf(stem + b, b) == Some(|stem|)
    ensures DefaultFilenameTransformer(stem + a, Single(a), b) == Ok(stem + b)
    ensures DefaultFilenameTransformer(stem + b, Single(b), a) == Ok(stem + a)
  {
    SwapAtEnd(stem, a, b);
    SwapAtEnd(stem, b, a);
  }

  lemma SwapAtEnd(stem: string, a: string, b: string)
    requires '$' !in b
    requires IndexOf(stem + a, a) == Some(|stem|)
    ensures DefaultFilenameTransformer(stem + a, Single(a), b) == Ok(stem + b)
  {
    var name := stem + a;
    RenameFirstOccurrence(name, a, b, |stem|);
    assert name[..|stem|] + b + name[|stem| + |a|..] == stem + b by {
      assert name[..|stem|] == stem;
      assert name[|stem| + |a|..] == [];
    }
  }

  /** With an array, the extension found at the end is then replaced at its
      first occurrence. */
  lemma RenameWithArray(name: string, exts: seq<string>, newExt: string, i: nat, j: nat)
    requires '$' !in newExt
    requires FindSuffix(name, exts) == Some(i)
    requires IndexOf(name, exts[i]) == Some(j)
    ensures DefaultFilenameTransformer(name, AnyOf(exts), newExt) == Ok(name[..j] + newExt + name[j + |exts[i]|..])
  {
    assert DefaultFilenameTransformer(name, AnyOf(exts), newExt) == DefaultFilenameTransformer(name, Single(exts[i]), newExt);
    RenameFirstOccurrence(name, exts[i], newExt, j);
  }

  lemma RepeatedExtensionFacts(name: string)
    requires name == "a.yml.yml"
    ensures FindSuffix(name, [".yml"]) == Some(0)
    ensures IndexOf(name, ".yml") == Some(1)
  {
    assert name[5..] == ".yml";
    assert OccursAt(name, ".yml", 1) by {
      assert name[1..5] == ".yml";
    }
    assert !OccursAt(name, ".yml", 0) by {
      assert name[0] != '.';
    }
    IndexOfFirst(name, ".yml", 1);
  }

  /** The array form checks the end of the name but then replaces the first
      occurrence of the chosen extension, which need not be the last one:
      `a.yml.yml` becomes `a.json.yml`. */
  lemma RenameReplacesFirstNotLast(name: string)
    requires name == "a.yml.yml"
    ensures DefaultFilenameTransformer(name, AnyOf([".yml"]), ".json") == Ok("a.json.yml")
  {
    RepeatedExtensionFacts(name);
    RenameWithArray(name, [".yml"], ".json", 0, 1);
    SplicedName(name);
  }

  lemma SplicedName(name: string)
    requires name == "a.yml.yml"
    ensures name[..1] + ".json" + name[5..] == "a.json.yml"
  {
    assert name[..1] == "a" && name[5..] == ".yml";
    assert "a" + ".json" + ".yml" == "a.json.yml";
  }

  /** `getFilenameTransformer(oldExt, newExt)`: the filename transformer
      with both extensions fixed. */
  function GetFilenameTransformer(oldExt: ExtensionArg, newExt: string): (f: string -> Result<string>)
    ensures forall name :: f(name) == DefaultFilenameTransformer(name, oldExt, newExt)
  {
    (name: string) => DefaultFilenameTransformer(name, oldExt, newExt)
  }

  /** The `.npsrc` script renames with `getFilenameTransformer(yamlExt,
      jsonExt)` the files `isYAMLFile` lets through: none of them makes it
      throw. */
  lemma YamlFilesRenameWithoutError(file: Dirent)
    requires IsYAMLFile(file)
    ensures GetFilenameTransformer(AnyOf(YamlExt), JsonExt)(file.name).Ok?
  {
    assert EndsWith(file.name, YamlExt[0]) || EndsWith(file.name, YamlExt[1]);
  }

  /** The YAML extension a name ends with is the one `find` picks. */
  lemma YamlSuffixFound(stem: string, i: nat)
    requires i < |YamlExt|
    ensures FindSuffix(stem + YamlExt[i], YamlExt) == Some(i)
  {
    var name := stem + YamlExt[i];
    assert EndsWith(name, YamlExt[i]) by { assert name[|name| - |YamlExt[i]|..] == YamlExt[i]; }
    if i == 1 {
      assert !EndsWith(name, YamlExt[0]) by { assert name[|name| - 4..] == "yaml"; }
    }
  }

  /** Renaming a name that ends in `ext`, where `ext` first occurs at its
      end, leaves the stem and appends the new extension. */
  lemma StemKept(stem: string, ext: string, newExt: string)
    ensures (stem + ext)[..|stem|] + newExt + (stem + ext)[|stem| + |ext|..] == stem + newExt
  {
    assert (stem + ext)[..|stem|] == stem;
    assert (stem + ext)[|stem| + |ext|..] == [];
  }

  lemma YamlRenameAt(stem: string, ext: string, i: nat)
    requires i < |YamlExt| && ext == YamlExt[i]
    requires IndexOf(stem + ext, ext) == Some(|stem|)
    requires FindSuffix(stem + ext, YamlExt) == Some(i)
    ensures DefaultFilenameTransformer(stem + ext, AnyOf(YamlExt), JsonExt) == Ok(stem + JsonExt)
  {
    RenameWithArray(stem + ext, YamlExt, JsonExt, i, |stem|);
    StemKept(stem, ext, JsonExt);
  }

  /** A name whose YAML extension (`.yml` for `i = 0`, `.yaml` for `i = 1`)
      occurs only at its end gets `.json` in its place. */
  lemma YamlNameRenamesToJson(stem: string, i: nat)
    requires i < |YamlExt| && IndexOf(stem + YamlExt[i], YamlExt[i]) == Some(|stem|)
    ensures GetFilenameTransformer(AnyOf(YamlExt), JsonExt)(stem + YamlExt[i]) == Ok(stem + JsonExt)
  {
    YamlSuffixFound(stem, i);
    YamlRenameAt(stem, YamlExt[i], i);
  }
}
