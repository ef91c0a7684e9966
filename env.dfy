/** The environment-variable matcher of the build scripts
    (src/.dev/scripts/common/env.ts). The environment is a parameter: a map
    from variable names to their values, an unset variable being absent. */
module Env {
  import opened Js
  import opened JsStrings

  const EmptyNameMessage: string := "Please supply a non-empty environment variable name."

  /** The `TRUE` set. `Set.prototype.has` compares by SameValueZero, which
      for the values modelled here is equality. */
  const TRUE: set<JsValue> := {
    Bool(true), Str("true"), Str("True"), Str("TRUE"),
    Int(1), Str("1"),
    Str("yes"), Str("Yes"), Str("YES"),
    Str("on"), Str("On"), Str("ON")
  }

  /** The `FALSE` set; `0` and `-0` are the one integer `Int(0)`. */
  const FALSE: set<JsValue> := {
    Bool(false), Str("false"), Str("False"), Str("FALSE"),
    Int(0), Str("0"), Str("-0"),
    Str("no"), Str("No"), Str("NO"),
    Str("off"), Str("Off"), Str("OFF"),
    Str("[]"), Str("{}"),
    Undefined, Str("undefined"), Str("Undefined"), Str("UNDEFINED"),
    Null, Str("null"), Str("Null"), Str("NULL"),
    Str("NaN"), Str("")
  }

  /** The strings in `TRUE`, which are the values a variable can have to
      satisfy a truthy expectation. */
  const TrueStrings: set<string> := {"true", "True", "TRUE", "1", "yes", "Yes", "YES", "on", "On", "ON"}

  /** The strings in `FALSE`. */
  const FalseStrings: set<string> := {
    "false", "False", "FALSE", "0", "-0", "no", "No", "NO", "off", "Off", "OFF", "[]", "{}",
    "undefined", "Undefined", "UNDEFINED", "null", "Null", "NULL", "NaN", ""
  }

  /** `isTruthy(value)`: `true`, `1` and the strings of `TRUE`. */
  function IsTruthy(v: JsValue): (r: bool)
    ensures r <==> v == Bool(true) || v == Int(1) || (v.Str? && v.s in TrueStrings)
  {
    v in TRUE
  }

  /** `isFalsy(value)`: `false`, `0`, `undefined`, `null` and the strings
      of `FALSE`. */
  function IsFalsy(v: JsValue): (r: bool)
    ensures r <==> v == Bool(false) || v == Int(0) || v == Undefined || v == Null || (v.Str? && v.s in FalseStrings)
  {
    v in FALSE
  }

  /** `isUndefined(value)`: every such value is falsy and none is truthy. */
  function IsUndefined(v: JsValue): (r: bool)
    ensures r ==> IsFalsy(v) && !IsTruthy(v)
    ensures r <==> v.Undefined? || v.Null? || v == Str("")
  {
    v == Undefined || v == Null || v == Str("")
  }

  /** No value is both truthy and falsy. */
  lemma TruthyFalsyDisjoint(v: JsValue)
    ensures !(IsTruthy(v) && IsFalsy(v))
  {
  }

  lemma StringSets(s: string)
    ensures IsTruthy(Str(s)) <==> s in TrueStrings
    ensures IsFalsy(Str(s)) <==> s in FalseStrings
  {
  }

  /** `process.env[variableName]`. */
  function EnvValue(env: map<string, string>, name: string): JsValue
  {
    if name in env then Str(env[name]) else Undefined
  }

  /** A measure under which every recursive call of the matcher is on a
      smaller expectation. */
  function Rank(v: JsValue): (r: nat)
    ensures r >= 1
  {
    match v
    case Array(xs) => 2 + RankSeq(xs)
    case Int(_) => 2
    case _ => 1
  }

  function RankSeq(xs: seq<JsValue>): nat
  {
    if |xs| == 0 then 0 else Rank(xs[0]) + RankSeq(xs[1..])
  }

  /** `envVariableIs(variableName, variableValue)`: whether the variable's
      value fits the expectation, decided by the first branch that applies;
      an empty variable name throws a `TypeError`. */
  function EnvVariableIs(env: map<string, string>, name: string, expected: JsValue): (r: Result<bool>)
    ensures r.Throw? <==> name == ""
    ensures r.Throw? ==> r.error == TypeError(EmptyNameMessage)
    decreases Rank(expected), 0
  {
    if |name| > 0 then
      if expected.Array? then
        if |expected.elems| > 0 then Ok(SomeIs(env, name, expected.elems))
        else EnvVariableIs(env, name, Undefined)
      else
        var envVar := EnvValue(env, name);
        if IsUndefined(expected) || expected == NaN then
          Ok(IsUndefined(envVar) || envVar == NaN)
        else if IsTruthy(expected) then
          Ok(IsTruthy(envVar))
        else if IsFalsy(expected) then
          Ok(IsFalsy(envVar))
        else if expected.Int? then
          EnvVariableIs(env, name, Str(DecimalString(expected.i)))
        else if expected.Str? then
          Ok(envVar == expected)
        else
          Ok(false)
    else
      Throw(TypeError(EmptyNameMessage))
  }

  /** `variableValue.some(...)` over the possibilities of an array. */
  function SomeIs(env: map<string, string>, name: string, xs: seq<JsValue>): bool
    requires name != ""
    decreases RankSeq(xs), 1
  {
    if |xs| == 0 then false
    else EnvVariableIs(env, name, xs[0]).value || SomeIs(env, name, xs[1..])
  }

  // ---------------------------------------------------------------------
  // What an expectation means

  /** The variable is unset or empty. */
  predicate Unset(env: map<string, string>, name: string)
  {
    name !in env || env[name] == ""
  }

  /** The variable is set to one of `values`. */
  predicate SetToOneOf(env: map<string, string>, name: string, values: set<string>)
  {
    name in env && env[name] in values
  }

  /** The variable is unset or set to one of `values`. */
  predicate UnsetOrOneOf(env: map<string, string>, name: string, values: set<string>)
  {
    name !in env || env[name] in values
  }

  /** The meaning of an expectation, kind by kind: a non-empty array holds
      when one of its members does and an empty one means `undefined`;
      `undefined`, `null`, `NaN` and `''` mean unset or empty; a value of
      `TRUE` means set to a string of `TRUE`; a value of `FALSE` means unset
      or set to a string of `FALSE`; any other integer means set to its
      decimal form; any other string means set to exactly that string;
      anything else never holds. */
  predicate Satisfies(env: map<string, string>, name: string, expected: JsValue)
  {
    match expected
    case Array(xs) =>
      if |xs| == 0 then Unset(env, name) else exists i :: 0 <= i < |xs| && Satisfies(env, name, xs[i])
    case Undefined => Unset(env, name)
    case Null => Unset(env, name)
    case NaN => Unset(env, name)
    case Bool(b) => if b then SetToOneOf(env, name, TrueStrings) else UnsetOrOneOf(env, name, FalseStrings)
    case Int(n) =>
      if n == 1 then SetToOneOf(env, name, TrueStrings)
      else if n == 0 then UnsetOrOneOf(env, name, FalseStrings)
      else name in env && env[name] == DecimalString(n)
    case Str(s) =>
      if s == "" then Unset(env, name)
      else if s in TrueStrings then SetToOneOf(env, name, TrueStrings)
      else if s in FalseStrings then UnsetOrOneOf(env, name, FalseStrings)
      else name in env && env[name] == s
    case Object(_) => false
  }

  /** A non-empty string of digits, possibly after a leading `-`: the
      form of `String(n)` for an integer `n`. */
  predicate IsNumeral(x: string)
  {
    |x| > 0 && forall k :: 0 <= k < |x| ==> IsDigit(x[k]) || (k == 0 && x[k] == '-')
  }

  /** The only numerals among the listed strings are `1`, `0` and `-0`. */
  lemma NumeralsInSets(x: string)
    requires IsNumeral(x)
    ensures x in TrueStrings ==> x == "1"
    ensures x in FalseStrings ==> x == "0" || x == "-0"
  {
    assert IsDigit(x[0]) || x[0] == '-';
  }

  /** The decimal form of an integer other than 0 and 1 is in neither set. */
  lemma DecimalStringIsPlain(n: int)
    requires n != 0 && n != 1
    ensures DecimalString(n) !in TrueStrings && DecimalString(n) !in FalseStrings
  {
    var d := DecimalString(n);
    DecimalRoundTrip(n);
    assert d != "1" by {
      assert ParseDecimal("1") == 1;
    }
    assert d != "0" by {
      assert ParseDecimal("0") == 0;
    }
    assert d != "-0" by {
      assert ParseDecimal("-0") == 0 by { assert "-0"[1..] == "0"; }
    }
    NumeralsInSets(d);
  }

  /** What the tests on the variable's value amount to. */
  lemma EnvValueFacts(env: map<string, string>, name: string)
    ensures IsUndefined(EnvValue(env, name)) || EnvValue(env, name) == NaN <==> Unset(env, name)
    ensures IsTruthy(EnvValue(env, name)) <==> SetToOneOf(env, name, TrueStrings)
    ensures IsFalsy(EnvValue(env, name)) <==> UnsetOrOneOf(env, name, FalseStrings)
  {
    if name in env {
      StringSets(env[name]);
    }
  }

  /** A string expectation: the `''` case, a string of `TRUE`, one of
      `FALSE`, or any other string compared exactly. */
  lemma StringMeaning(env: map<string, string>, name: string, s: string)
    requires name != ""
    ensures EnvVariableIs(env, name, Str(s)) == Ok(Satisfies(env, name, Str(s)))
  {
    EnvValueFacts(env, name);
    StringSets(s);
  }

  /** The expectations decided without recursion and without comparing
      strings: `undefined`, `null`, `NaN`, booleans, `0`, `1` and objects. */
  lemma ScalarMeaning(env: map<string, string>, name: string, expected: JsValue)
    requires name != ""
    requires !expected.Array? && !expected.Str?
    requires expected.Int? ==> expected.i == 0 || expected.i == 1
    ensures EnvVariableIs(env, name, expected) == Ok(Satisfies(env, name, expected))
  {
    EnvValueFacts(env, name);
  }

  /** The matcher decides exactly `Satisfies`, and throws only for an empty
      variable name. */
  lemma {:induction false} EnvVariableIsMeaning(env: map<string, string>, name: string, expected: JsValue)
    requires name != ""
    ensures EnvVariableIs(env, name, expected) == Ok(Satisfies(env, name, expected))
    decreases Rank(expected), 0
  {
    if expected.Array? {
      if |expected.elems| == 0 {
        ScalarMeaning(env, name, Undefined);
      } else {
        SomeIsMeaning(env, name, expected.elems);
      }
    } else if expected.Str? {
      StringMeaning(env, name, expected.s);
    } else if expected.Int? && expected.i != 0 && expected.i != 1 {
      var d := DecimalString(expected.i);
      DecimalStringIsPlain(expected.i);
      StringMeaning(env, name, d);
      assert Satisfies(env, name, Str(d)) == Satisfies(env, name, expected);
    } else {
      ScalarMeaning(env, name, expected);
    }
  }

  lemma {:induction false} SomeIsMeaning(env: map<string, string>, name: string, xs: seq<JsValue>)
    requires name != ""
    ensures SomeIs(env, name, xs) <==> exists i :: 0 <= i < |xs| && Satisfies(env, name, xs[i])
    decreases RankSeq(xs), 1
  {
    if |xs| > 0 {
      EnvVariableIsMeaning(env, name, xs[0]);
      SomeIsMeaning(env, name, xs[1..]);
      assert forall i :: 1 <= i < |xs| ==> xs[i] == xs[1..][i - 1];
      if Satisfies(env, name, xs[0]) {
        assert 0 <= 0 < |xs| && Satisfies(env, name, xs[0]);
      }
    }
  }

  /** An empty name throws whatever the expectation. */
  lemma EmptyNameThrows(env: map<string, string>, expected: JsValue)
    ensures EnvVariableIs(env, "", expected) == Throw(TypeError(EmptyNameMessage))
  {
  }

  /** An empty array of possibilities behaves exactly like `undefined`. */
  lemma EmptyArrayIsUndefined(env: map<string, string>, name: string)
    ensures EnvVariableIs(env, name, Array([])) == EnvVariableIs(env, name, Undefined)
  {
  }

  /** The `undefined` branch comes first: expecting `null` is not met by a
      variable set to `'null'`, although `'null'` is in `FALSE`; and truthy
      matching is exact, so `'tRuE'` does not satisfy `true`. */
  lemma BranchOrderAndExactness()
    ensures EnvVariableIs(map["X" := "null"], "X", Null) == Ok(false)
    ensures EnvVariableIs(map["X" := "null"], "X", Bool(false)) == Ok(true)
    ensures EnvVariableIs(map["CI" := "tRuE"], "CI", Bool(true)) == Ok(false)
    ensures EnvVariableIs(map[], "CI", Bool(false)) == Ok(true)
  {
    EnvVariableIsMeaning(map["X" := "null"], "X", Null);
    EnvVariableIsMeaning(map["X" := "null"], "X", Bool(false));
    EnvVariableIsMeaning(map["CI" := "tRuE"], "CI", Bool(true));
    EnvVariableIsMeaning(map[], "CI", Bool(false));
  }

  // ---------------------------------------------------------------------
  // Test-environment and CI-provider detection

  datatype CIProvider = AppVeyor | CircleCI | Travis | GithubActions | GitlabCI
  {
    /** The environment variable that names the provider. */
    function VariableName(): string
    {
      match this
      case AppVeyor => "APPVEYOR"
      case CircleCI => "CIRCLECI"
      case Travis => "TRAVIS"
      case GithubActions => "GITHUB_ACTIONS"
      case GitlabCI => "GITLAB_CI"
    }
  }

  /** Compared with `true`, a variable matches when it is set to a string
      of `TRUE`. */
  lemma IsTrue(env: map<string, string>, name: string)
    requires name != ""
    ensures EnvVariableIs(env, name, Bool(true)) == Ok(SetToOneOf(env, name, TrueStrings))
  {
    EnvVariableIsMeaning(env, name, Bool(true));
  }

  /** Compared with a string outside `TRUE` and `FALSE`, a variable matches
      when it holds exactly that string. */
  lemma IsExactly(env: map<string, string>, name: string, x: string)
    requires name != "" && x != "" && x !in TrueStrings && x !in FalseStrings
    ensures EnvVariableIs(env, name, Str(x)) == Ok(name in env && env[name] == x)
  {
    EnvVariableIsMeaning(env, name, Str(x));
  }

  /** `IS_TEST_ENV`: `NODE_ENV` is `test`, or `CI` or
      `CONTINUOUS_INTEGRATION` is set to a string of `TRUE`. */
  function IsTestEnv(env: map<string, string>): (r: bool)
    ensures r <==> (
      ("NODE_ENV" in env && env["NODE_ENV"] == "test")
      || SetToOneOf(env, "CI", TrueStrings)
      || SetToOneOf(env, "CONTINUOUS_INTEGRATION", TrueStrings))
  {
    IsExactly(env, "NODE_ENV", "test");
    IsTrue(env, "CI");
    IsTrue(env, "CONTINUOUS_INTEGRATION");
    EnvVariableIs(env, "NODE_ENV", Str("test")).value
    || EnvVariableIs(env, "CI", Bool(true)).value
    || EnvVariableIs(env, "CONTINUOUS_INTEGRATION", Bool(true)).value
  }

  /** `isProvider(provider)`: a test environment whose provider variable is
      set to a string of `TRUE`; so a detected provider implies a test
      environment. */
  function IsProvider(env: map<string, string>, provider: CIProvider): (r: bool)
    ensures r ==> IsTestEnv(env)
    ensures r <==> IsTestEnv(env) && SetToOneOf(env, provider.VariableName(), TrueStrings)
  {
    IsTrue(env, provider.VariableName());
    IsTestEnv(env) && EnvVariableIs(env, provider.VariableName(), Bool(true)).value
  }

  /** The members of the `CI_Provider` enumeration. */
  const Providers: set<CIProvider> := {AppVeyor, CircleCI, Travis, GithubActions, GitlabCI}

  lemma ProvidersListed()
    ensures forall p: CIProvider :: p in Providers
  {
    forall p: CIProvider ensures p in Providers {
      match p
      case AppVeyor =>
      case CircleCI =>
      case Travis =>
      case GithubActions =>
      case GitlabCI =>
    }
  }

  /** The `IS` record: every provider, each mapped to whether it is the
      one detected. */
  function IS(env: map<string, string>): (r: map<CIProvider, bool>)
    ensures forall p: CIProvider :: p in r
    ensures forall p :: p in r ==> (r[p] <==> IsTestEnv(env) && SetToOneOf(env, p.VariableName(), TrueStrings))
  {
    ProvidersListed();
    map p: CIProvider | p in Providers :: IsProvider(env, p)
  }
}
