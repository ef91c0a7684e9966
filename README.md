# Build-script helpers: file names, string transformers and CI detection

This project models the pure logic behind the repository's YAML-to-JSON build
scripts, in Dafny, and proves what that logic promises. There are three parts:

- **File-name and string-transformer helpers** (`src/.dev/common/files.ts`):
  - `hasExtension`, a recursive extension matcher with its error rule;
  - `isYAMLFile`;
  - `regexpReplacerParameterHandler`, which splits the variadic arguments of a `replace` callback into a record;
  - the string transformer built by `getStringTransformer`, which maps over arrays and calls `replace` on strings;
  - the stringify replacer built by `getStringifyReplacer`;
  - `getSecondParam`;
  - `escapeRegExp`;
  - `defaultFilenameTransformer` and `getFilenameTransformer`, which swap extensions.
- **The environment-variable matcher** (`src/.dev/scripts/common/env.ts`):
  - the `TRUE`/`FALSE` sets and `isTruthy`, `isFalsy`, `isUndefined`;
  - `envVariableIs`, a decision procedure with ordered branches and recursion over arrays;
  - `IS_TEST_ENV`, `isProvider` and the `IS` record.
- **The tsconfig rename handler** (`src/.dev/.tsconfig/index.ts:27-56`): it turns a YAML configuration name into a canonical `tsconfig.<name>.json` name.

The files:

- `js.dfy` holds JavaScript values, exceptions and results.
- `js_strings.dfy` holds the string built-ins the scripts rely on:
  - `indexOf`;
  - `replace` with a literal pattern, including the `$` patterns of its replacement string;
  - `substring` with its clamping;
  - `join`;
  - `String(n)` for integers.
- `path.dfy` holds Node's `path.extname` for names without separators.
- `files.dfy`, `env.dfy` and `tsconfig.dfy` model the three parts above.

Regular-expression matching is not modelled. A pattern is a function from a string to the list of matches it reports. Each match has:

- an offset;
- the matched text;
- the positional captures;
- the groups object, present only for patterns with named groups.

`replace` with a callback is modelled as splicing the callback's result in place of each match. The process environment is a `map<string, string>` parameter.

Extension comparison is exact and case-sensitive, as written at `src/.dev/common/files.ts:28` (`===` against `path.extname`). A case-insensitive reading of "has extension" is not what the code does, and the model follows the code.

## Model

| member | source | states |
|---|---|---|
| Path.ExtName | src/.dev/common/files.ts:28 | `path.extname` is `''` exactly when the name has no `.`, its only candidate `.` is the first character, or it is `..`; otherwise it is a proper suffix of the name that starts with `.` and contains no other `.` |
| Path.ExtNameIs | src/.dev/common/files.ts:28 | for an extension with exactly one leading `.`, `extname(name) === ext` iff the name ends with it after at least one more character |
| JsStrings.IndexOf | src/.dev/common/files.ts:158 | `indexOf` returns an index where the pattern occurs and no earlier one does, or reports that it occurs nowhere |
| JsStrings.ReplaceFirstLiteral | src/.dev/common/files.ts:158 | `replace` with a literal pattern and a `$`-free replacement exchanges the first occurrence and keeps everything else |
| JsStrings.ReplaceFirstAbsent | src/.dev/common/files.ts:158 | without an occurrence, `replace` returns the string unchanged |
| JsStrings.Substring | src/.dev/.tsconfig/index.ts:41-42 | `substring` within bounds is the slice between the two indices; it never outgrows the string |
| JsStrings.DecimalRoundTrip | src/.dev/scripts/common/env.ts:48-49 | `String(n)` of an integer reads back as `n`, so distinct integers compare as distinct strings |
| Files.MatchSingle | src/.dev/common/files.ts:18-28 | a single extension throws `TypeError('Please provide an extension')` iff it is `''` or `.` and the call is not recursive; otherwise the answer is whether it matches |
| Files.AnyMatch | src/.dev/common/files.ts:16-17 | an array of extensions matches iff some element matches; an empty array never matches |
| Files.HasExtension | src/.dev/common/files.ts:13-30 | throws iff a lone `''`/`.` is passed directly (a directory entry's call drops the recursion marker), with the `TypeError` message; otherwise true iff the single extension or some array element matches the name |
| Files.HasExtensionBySuffix | src/.dev/common/files.ts:25-28 | a one-dot extension, with or without its dot, matches exactly the names ending in it after at least one other character |
| Files.DotIsOptional | src/.dev/common/files.ts:25-27 | `yml` and `.yml` give the same answer, errors included |
| Files.OnlyTheLastExtensionCounts | src/.dev/common/files.ts:28 | `a.yml.bak`, `a.YML` and the dotfile `.yml` do not match `.yml` |
| Files.EmptyExtensionInArray | src/.dev/common/files.ts:16-23 | `''` passed directly throws, while `['', '.yml']` is legal and matches `a.yml` |
| Files.YamlExtensions | src/.dev/common/files.ts:32-35 | a name has one of the YAML extensions iff it ends in `.yml` or `.yaml` after at least one other character |
| Files.IsYAMLFile | src/.dev/common/files.ts:32-35 | an entry is a YAML file iff it is a regular file whose name ends in `.yml` or `.yaml` after at least one other character; directories never are |
| Files.PoppedParameters | src/.dev/common/files.ts:53-60 | the handler's record puts back together into the argument list: matches, then offset, whole string and groups; with four or more arguments the whole match is the first; with fewer than three, the pops take what there is from the end and give `undefined` once the array is empty |
| Files.RegexpReplacerParameterHandler | src/.dev/common/files.ts:53-60 | the three `pop()` calls and the copy compute exactly the positional record |
| Files.PoppedWithNamedGroups | src/.dev/common/files.ts:53-60 | for a pattern with named groups the record holds the groups, whole string, offset, matches and whole match of the call |
| Files.PoppedWithoutNamedGroups | src/.dev/common/files.ts:53-60 | for a pattern without named groups the whole string lands in `groups`, the offset in `wholeString`, and the last capture or the match in `offset` |
| Files.MisassignedWithoutNamedGroups | src/.dev/common/files.ts:53-56 | `"xa".replace(/a/, f)` gives `f` the groups `'xa'`, the whole string `1` and the offset `'a'` |
| Files.SplitReplacerArguments | src/.dev/common/files.ts:53-60 | the corrected split: what it returns is a prefix of the arguments led by the whole match |
| Files.SplitRecoversMatch | src/.dev/common/files.ts:53-60 | the corrected split recovers every part of every `replace` call, with or without named groups |
| Files.ReplaceOneMatch | src/.dev/common/files.ts:95 | `replace` with one match keeps the text around it and puts the handler's result in its place |
| Files.ReplaceMatches | src/.dev/common/files.ts:95 | `replace` keeps the text before the first match and puts the handler's result for that match right after it; without matches the rest of the string is returned as is |
| Files.ReplaceMatchesIsConcatenation | src/.dev/common/files.ts:95 | every match is replaced, left to right: the result is, for each match in turn, the text since the previous match followed by the handler's result for it, then the text after the last match |
| Files.MatchedTextIsIdentity | src/.dev/common/files.ts:95 | a handler that gives back each matched text leaves the string unchanged |
| Files.StringTransform | src/.dev/common/files.ts:89-99 | a string is rewritten by `replace` over the pattern's matches in it; an array stays an array of the same length, each element rewritten the same way on its own |
| Files.NoMatchIsIdentity | src/.dev/common/files.ts:94-95 | a string without matches is returned unchanged |
| Files.TransformConcat | src/.dev/common/files.ts:91-93 | transforming an array commutes with splitting it, so order is kept |
| Files.StringifyReplacer | src/.dev/common/files.ts:105-114 | a string value is replaced by the transformer's result for the bound pattern; every other value comes back unchanged |
| Files.StringifyIgnoresKey | src/.dev/common/files.ts:106-112 | the key plays no part: two keys give the same result for every value |
| Files.GetSecondParam | src/.dev/common/files.ts:76-78 | the result is the second argument, or `undefined` when there are fewer than two |
| Files.SecondParamIsIdentityReplacer | src/.dev/common/files.ts:76-78 | as a stringify replacer, `getSecondParam` keeps every value, like a transformer that changes nothing |
| Files.EscapeRegExp | src/.dev/common/files.ts:175-177 | the output is as long as the input plus the number of special characters, and every special character in it is escaped |
| Files.UnescapeEscape | src/.dev/common/files.ts:175-177 | removing the inserted backslashes gives back the input |
| Files.FindSuffix | src/.dev/common/files.ts:151 | `find` gives the first listed extension the name ends with, or none when no extension fits |
| Files.DefaultFilenameTransformer | src/.dev/common/files.ts:149-160 | with an array: throws `Error` with the listed message iff `find` finds no extension ending the name, else renames with the extension `find` picks; a single string is never an error |
| Files.RenameWithFirstEndingExtension | src/.dev/common/files.ts:149-156 | with an array, the call throws iff no listed extension ends the name; otherwise it replaces an extension that ends the name and that no earlier-listed extension precedes |
| Files.RenameWithArray | src/.dev/common/files.ts:150-158 | the extension found at the end is then replaced at its first occurrence in the name |
| Files.RenameFirstOccurrence | src/.dev/common/files.ts:158 | the first occurrence of the old extension, wherever it is, becomes the new one |
| Files.RenameWithoutOccurrence | src/.dev/common/files.ts:158 | a name without the old extension is returned unchanged |
| Files.RenameRoundTrip | src/.dev/common/files.ts:149-160 | swapping an extension and swapping it back restores the name when each extension first occurs at the end |
| Files.RenameReplacesFirstNotLast | src/.dev/common/files.ts:150-158 | `a.yml.yml` with `['.yml']` becomes `a.json.yml`: the end is checked but the first occurrence is replaced |
| Files.GetFilenameTransformer | src/.dev/common/files.ts:166-169 | the returned transformer renames every name exactly as `defaultFilenameTransformer` does with the two bound extensions |
| Files.YamlFilesRenameWithoutError | src/.dev/common/files.ts:166-169 | the YAML-to-JSON filename transformer never throws on a file `isYAMLFile` accepts |
| Files.YamlNameRenamesToJson | src/.dev/common/files.ts:166-169 | a name whose `.yml`/`.yaml` extension occurs only at its end gets `.json` in its place |
| Env.TruthyFalsyDisjoint | src/.dev/scripts/common/env.ts:3-26 | no value is both truthy and falsy |
| Env.StringSets | src/.dev/scripts/common/env.ts:3-18 | a string is in `TRUE`/`FALSE` iff it is one of the listed strings |
| Env.IsTruthy | src/.dev/scripts/common/env.ts:20-22 | truthy means `true`, `1` or one of the listed `TRUE` strings, and nothing else |
| Env.IsFalsy | src/.dev/scripts/common/env.ts:24-26 | falsy means `false`, `0` (so also `-0`), `undefined`, `null` or one of the listed `FALSE` strings, and nothing else |
| Env.IsUndefined | src/.dev/scripts/common/env.ts:28-30 | `undefined`, `null` and `''` exactly; each of them is falsy and none is truthy |
| Env.EnvVariableIs | src/.dev/scripts/common/env.ts:32-59 | throws `TypeError` with the listed message iff the variable name is empty, whatever the expectation |
| Env.EnvVariableIsMeaning | src/.dev/scripts/common/env.ts:32-59 | for every non-empty name and every expectation the matcher answers exactly `Satisfies`. Non-empty arrays hold iff some element does; empty arrays, `undefined`, `null`, `NaN` and `''` mean unset or empty; truthy values mean set to a `TRUE` string; falsy values mean unset or a `FALSE` string; other integers compare by decimal string; other strings by equality; anything else is false |
| Env.SomeIsMeaning | src/.dev/scripts/common/env.ts:34-36 | `.some` over the possibilities holds iff one of them is satisfied |
| Env.DecimalStringIsPlain | src/.dev/scripts/common/env.ts:44-49 | the decimal string of an integer other than 0 and 1 is in neither set, so it is compared by equality |
| Env.EmptyNameThrows | src/.dev/scripts/common/env.ts:56-57 | an empty name throws the `TypeError` for every expectation |
| Env.EmptyArrayIsUndefined | src/.dev/scripts/common/env.ts:37-38 | an empty array of possibilities behaves exactly like `undefined` |
| Env.BranchOrderAndExactness | src/.dev/scripts/common/env.ts:42-47 | expecting `null` is not met by `'null'` (the undefined branch comes first), `false` is met by `'null'` and by an unset variable, and `'tRuE'` does not satisfy `true` |
| Env.IsTrue | src/.dev/scripts/common/env.ts:44-45 | compared with `true`, a variable matches iff it is set to one of the `TRUE` strings |
| Env.IsExactly | src/.dev/scripts/common/env.ts:50-51 | compared with a non-empty string outside `TRUE` and `FALSE`, a variable matches iff it holds exactly that string |
| Env.IsTestEnv | src/.dev/scripts/common/env.ts:61-64 | a test environment iff `NODE_ENV` is `test`, or `CI` or `CONTINUOUS_INTEGRATION` is one of the `TRUE` strings |
| Env.IsProvider | src/.dev/scripts/common/env.ts:74-76 | a provider is detected iff in a test environment with its variable set to a `TRUE` string, so detection implies a test environment |
| Env.ProvidersListed | src/.dev/scripts/common/env.ts:66-72 | the five providers are all the enumeration has |
| Env.IS | src/.dev/scripts/common/env.ts:78-84 | the record has an entry for every provider, true iff that provider is detected |
| Tsconfig.GroupString | src/.dev/.tsconfig/index.ts:31-35 | a group that captured a string is destructured to that string; any other group gives the default `''`, and a non-empty result is always a captured string |
| Tsconfig.Replacement | src/.dev/.tsconfig/index.ts:43-52 | every replacement starts with `tsconfig.` and ends with `.json` |
| Tsconfig.PlainBasenameIsWrapped | src/.dev/.tsconfig/index.ts:44-46 | without a `tsconfig` group the basename is wrapped whole, whatever the separator: `app` gives `tsconfig.app.json` |
| Tsconfig.BarePrefixIsBaseConfig | src/.dev/.tsconfig/index.ts:47-48 | a basename that is only the prefix and separator gives `tsconfig.json` |
| Tsconfig.PrefixIsStripped | src/.dev/.tsconfig/index.ts:49-51 | a basename that starts with the prefix and separator and goes on loses exactly that prefix |
| Tsconfig.FirstOccurrenceIsCut | src/.dev/.tsconfig/index.ts:49-51 | otherwise the first occurrence of the prefix and separator is cut out of the basename and the rest wrapped |
| Tsconfig.TsconfigHandler | src/.dev/.tsconfig/index.ts:27-56 | without groups or a basename the whole string is returned; with one, the result starts with the text before the match and has the replacement at the match's offset |
| Tsconfig.HandlerRewritesWholeString | src/.dev/.tsconfig/index.ts:41-53 | for a match inside the string the handler returns text before + replacement + text after |
| Tsconfig.AsWrittenDuplicatesSurroundings | src/.dev/.tsconfig/index.ts:41-53 | spliced in by `replace`, the handler's result doubles the text before and after the match |
| Tsconfig.InPathCounterexample | src/.dev/.tsconfig/index.ts:64-71 | `configs/tsconfig.yml` becomes `configs/configs/tsconfig.json` as written and `configs/tsconfig.json` with the corrected handler |
| Tsconfig.CorrectedHandler | src/.dev/.tsconfig/index.ts:27-56 | the corrected handler returns the replacement alone, or the matched text when there is nothing to rename |
| Tsconfig.CorrectedKeepsSurroundings | src/.dev/.tsconfig/index.ts:41-53 | with the corrected handler the text around the match is kept once, and a match with nothing to rename leaves the string unchanged |
| Tsconfig.AgreeOnWholeStringMatch | src/.dev/.tsconfig/index.ts:84 | when the match is the whole string (the anchored filename pattern) both handlers agree |
| Tsconfig.FilenameExample | src/.dev/.tsconfig/index.ts:84 | the output name for `tsconfig.app.yml` is `tsconfig.app.json` |

## Left out

- `processFiles` (src/.dev/common/files.ts:179-227) is not modelled. It is directory reading, file I/O and fire-and-forget async callbacks.
- `yamlSafeLoader` and `getJSONOutputWriter` (src/.dev/common/files.ts:127-135) are not modelled. They are thin wrappers over a YAML parser and the file system.
- `JSON.stringify` itself is not modelled; the stringify replacer is modelled for one key and value at a time.
- `identityFunction` and `trueFunction` (src/.dev/common/files.ts:68-74) and `falseFunction` (src/.dev/common/files.ts:80-82) are constant helpers and are not modelled.
- `getRegExpReplacer` (src/.dev/common/files.ts:62-66) is not a separate member. Replacing hands the handler the record built from the match directly. For patterns with named groups, `PoppedWithNamedGroups` shows this is what the as-written argument handler builds.
- Files.StringTransform: its handler receives the record `MatchParameters` builds for each match, which is the corrected argument split (`SplitReplacerArguments`). The source's `getRegExpReplacer` passes the record `regexpReplacerParameterHandler` builds instead. The two agree only for patterns with named groups (`PoppedWithNamedGroups`). For other patterns the source handler gets misassigned fields (`MisassignedWithoutNamedGroups`), and the model does not reproduce what a handler would return from those.
- Regular-expression matching is not modelled. This covers `baseRegExp`, `filenameOnlyRegExp` and `inPathRegExp` (src/.dev/.tsconfig/index.ts:59-69), with their Unicode, case-insensitive, lookbehind and lookahead features. Matches are inputs, checked only for lying in order inside the string.
- `replace`'s replacement patterns that refer to capture groups (`$1`, `$<name>`) are not modelled. The only string-replacement patterns in the core have no groups.
- Reading `process.env` is not modelled: the environment is a parameter. `IS_TEST_ENV` and `IS` are computed once at module load in the source; here they are functions of that parameter.
- `envVariableIs` covers only integers among numbers, plus a NaN tag. `String(n)` for fractions and exponents, the sign of `-0` and bigints are not modelled. Expectations outside the declared value types (objects) give `false`, as in the source's final branch.
- Path.ExtName: names containing path separators are not modelled, because the core only passes directory-entry names and bare file names.
- Tsconfig.GroupString: group values other than strings or `undefined` (such as `null`) are read as `''`. A regular expression never reports them.
- Tsconfig.TsconfigHandler: its contract states the result only for offsets inside the string. Other offsets, which `replace` never passes, follow `substring`'s clamping in the body.
- Files.DefaultFilenameTransformer: with an array, the first occurrence of the chosen extension is replaced, not necessarily the one at the end (`a.yml.yml` becomes `a.json.yml`). This is modelled as written and shown by `RenameReplacesFirstNotLast`. It needs a name that repeats its extension, so it is not listed as a finding.
- The scripts' wiring is not modelled:
  - argument parsing, output directories and the `processFiles` calls in src/.dev/.tsconfig/index.ts and src/.dev/.npsrc/index.ts;
  - `src/.dev/common/processes.ts`, which is process spawning and promise chaining;
  - the Express web application.

## Findings

| source | as written | input that shows it | evidently intended | confidence | as-written member | corrected member |
|---|---|---|---|---|---|---|
| src/.dev/common/files.ts:53-56 | Three values are always popped as groups, whole string and offset. `replace` passes a groups argument only when the pattern has named groups. | `"xa".replace(/a/, f)` passes `('a', 1, 'xa')`: `groups` gets `'xa'`, `wholeString` gets `1`, `offset` gets `'a'` | Pop the groups object only when it is there. `groups` is typed as possibly `undefined`, which suggests the author expected the groups argument always to be passed. | medium, not executed; latent, since the one handler in the repository uses a pattern with named groups | Files.RegexpReplacerParameterHandler (shown by Files.MisassignedWithoutNamedGroups) | Files.SplitReplacerArguments (Files.SplitRecoversMatch) |
| src/.dev/.tsconfig/index.ts:41-53 | The handler returns the whole rewritten string: text before, replacement, text after. `replace` puts that result in place of the match only, so the surrounding text appears twice. | the in-path replacer (line 71) on the value `configs/tsconfig.yml` gives `configs/configs/tsconfig.json` | Return only the replacement, giving `configs/tsconfig.json`. Output file names (line 84, anchored match of the whole name) are unaffected. | high, not executed | Tsconfig.TsconfigHandler (shown by Tsconfig.InPathCounterexample, Tsconfig.AsWrittenDuplicatesSurroundings) | Tsconfig.CorrectedHandler (Tsconfig.CorrectedKeepsSurroundings, Tsconfig.AgreeOnWholeStringMatch) |
