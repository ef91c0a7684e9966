/** The parts of JavaScript's string library the scripts rely on:
    `startsWith`, `endsWith`, `indexOf`, `replace` with a literal pattern
    (including the `$` patterns of its replacement string), `substring`,
    `Array.prototype.join` and `String(n)` for integers. */
module JsStrings {
  import opened Js

  predicate StartsWith(s: string, prefix: string)
  {
    |prefix| <= |s| && s[..|prefix|] == prefix
  }

  predicate EndsWith(s: string, suffix: string)
  {
    |suffix| <= |s| && s[|s| - |suffix|..] == suffix
  }

  /** `sub` occurs in `s` starting at index `i`. */
  predicate OccursAt(s: string, sub: string, i: nat)
  {
    i + |sub| <= |s| && s[i..i + |sub|] == sub
  }

  lemma OccursAtShift(s: string, sub: string, j: nat)
    requires |s| > 0
    ensures OccursAt(s, sub, j + 1) <==> OccursAt(s[1..], sub, j)
  {
    if j + 1 + |sub| <= |s| {
      assert s[1..][j..j + |sub|] == s[j + 1..j + 1 + |sub|];
    }
  }

  /** `s.indexOf(sub)`: the first index at which `sub` occurs, if any. */
  function IndexOf(s: string, sub: string): (r: Option<nat>)
    ensures r.Some? ==> OccursAt(s, sub, r.value)
    ensures r.Some? ==> forall j :: 0 <= j < r.value ==> !OccursAt(s, sub, j)
    ensures r.None? ==> forall j :: 0 <= j ==> !OccursAt(s, sub, j)
    decreases |s|
  {
    if StartsWith(s, sub) then
      assert s[0..|sub|] == s[..|sub|];
      Some(0)
    else if s == [] then
      None
    else
      var rest := IndexOf(s[1..], sub);
      forall j: nat | 1 <= j ensures OccursAt(s, sub, j) <==> OccursAt(s[1..], sub, j - 1) {
        OccursAtShift(s, sub, j - 1);
      }
      assert !OccursAt(s, sub, 0) by {
        if |sub| <= |s| { assert s[0..|sub|] == s[..|sub|]; }
      }
      match rest
      case None => None
      case Some(k) => Some(k + 1)
  }

  lemma IndexOfFirst(s: string, sub: string, i: nat)
    requires OccursAt(s, sub, i)
    requires forall j :: 0 <= j < i ==> !OccursAt(s, sub, j)
    ensures IndexOf(s, sub) == Some(i)
  {
  }

  /** The replacement text that `replace` builds from `template` for one
      match of a pattern without capture groups (GetSubstitution in the
      ECMAScript language specification): `$$` gives `$`, `$&` the matched
      text, `` $` `` the text before the match, `$'` the text after it, and
      every other character, other `$` sequences included, stands for
      itself. */
  function ExpandReplacement(template: string, matched: string, before: string, after: string): string
    decreases |template|
  {
    if |template| == 0 then
      ""
    else if template[0] == '$' && |template| >= 2 && template[1] in "$&`'" then
      var piece := match template[1]
        case '$' => "$"
        case '&' => matched
        case '`' => before
        case _ => after;
      piece + ExpandReplacement(template[2..], matched, before, after)
    else
      [template[0]] + ExpandReplacement(template[1..], matched, before, after)
  }

  /** A replacement string without `$` is inserted literally. */
  lemma {:induction false} ExpandWithoutDollar(template: string, matched: string, before: string, after: string)
    requires '$' !in template
    ensures ExpandReplacement(template, matched, before, after) == template
    decreases |template|
  {
    if |template| > 0 {
      assert template[0] != '$';
      assert '$' !in template[1..] by {
        forall k | 0 <= k < |template[1..]| ensures template[1..][k] != '$' {
          assert template[1..][k] == template[k + 1];
        }
      }
      ExpandWithoutDollar(template[1..], matched, before, after);
      assert [template[0]] + template[1..] == template;
    }
  }

  /** `s.replace(pattern, replaceValue)` for a pattern that matches one
      literal string: only the first occurrence is replaced. */
  function ReplaceFirst(s: string, pattern: string, replaceValue: string): string
  {
    match IndexOf(s, pattern)
    case None => s
    case Some(i) =>
      s[..i] + ExpandReplacement(replaceValue, pattern, s[..i], s[i + |pattern|..]) + s[i + |pattern|..]
  }

  /** With a `$`-free replacement, the first occurrence of the pattern and
      nothing else is exchanged for the replacement. */
  lemma ReplaceFirstLiteral(s: string, pattern: string, replaceValue: string, i: nat)
    requires '$' !in replaceValue
    requires IndexOf(s, pattern) == Some(i)
    ensures ReplaceFirst(s, pattern, replaceValue) == s[..i] + replaceValue + s[i + |pattern|..]
  {
    ExpandWithoutDollar(replaceValue, pattern, s[..i], s[i + |pattern|..]);
  }

  /** Without an occurrence of the pattern the string is returned unchanged. */
  lemma ReplaceFirstAbsent(s: string, pattern: string, replaceValue: string)
    requires IndexOf(s, pattern).None?
    ensures ReplaceFirst(s, pattern, replaceValue) == s
  {
  }

  /** The index `substring` uses for an argument: clamped to the string. */
  function Clamp(x: int, len: nat): (r: nat)
    ensures r <= len
    ensures 0 <= x <= len ==> r == x
  {
    if x < 0 then 0 else if x > len then len else x
  }

  /** `s.substring(start, end)`: both ends clamped, and swapped when
      `start` is the larger. */
  function Substring(s: string, start: int, end: int): (r: string)
    ensures 0 <= start <= end <= |s| ==> r == s[start..end]
    ensures |r| <= |s|
  {
    var a, b := Clamp(start, |s|), Clamp(end, |s|);
    if a <= b then s[a..b] else s[b..a]
  }

  /** `parts.join(sep)`. */
  function Join(parts: seq<string>, sep: string): string
  {
    if |parts| == 0 then ""
    else if |parts| == 1 then parts[0]
    else parts[0] + sep + Join(parts[1..], sep)
  }

  predicate IsDigit(c: char)
  {
    '0' <= c <= '9'
  }

  function DigitChar(d: nat): (c: char)
    requires d < 10
    ensures IsDigit(c)
  {
    "0123456789"[d]
  }

  function DigitValue(c: char): nat
    requires IsDigit(c)
  {
    (c as int - '0' as int) as nat
  }

  /** The decimal digits of a natural number, most significant first. */
  function Digits(n: nat): (r: string)
    ensures |r| > 0
    ensures forall k :: 0 <= k < |r| ==> IsDigit(r[k])
  {
    if n < 10 then [DigitChar(n)] else Digits(n / 10) + [DigitChar(n % 10)]
  }

  /** `String(n)` for an integer `n`. */
  function DecimalString(n: int): (r: string)
    ensures |r| > 0
    ensures forall k :: 0 <= k < |r| ==> IsDigit(r[k]) || (k == 0 && r[k] == '-')
  {
    if n < 0 then "-" + Digits(-n) else Digits(n)
  }

  /** The value of a string of decimal digits. */
  function ParseDigits(s: string): nat
    requires forall k :: 0 <= k < |s| ==> IsDigit(s[k])
  {
    if |s| == 0 then 0 else 10 * ParseDigits(s[..|s| - 1]) + DigitValue(s[|s| - 1])
  }

  /** The integer a decimal string written by `DecimalString` stands for. */
  function ParseDecimal(s: string): int
    requires |s| > 0
    requires forall k :: 0 <= k < |s| ==> IsDigit(s[k]) || (k == 0 && s[k] == '-')
  {
    if s[0] == '-' then -(ParseDigits(s[1..]) as int) else ParseDigits(s)
  }

  lemma {:induction false} DigitsRoundTrip(n: nat)
    ensures ParseDigits(Digits(n)) == n
  {
    if n >= 10 {
      DigitsRoundTrip(n / 10);
      var d := Digits(n);
      assert d[..|d| - 1] == Digits(n / 10);
    }
  }

  /** `String(n)` is read back as `n`: distinct integers have distinct
      decimal strings. */
  lemma DecimalRoundTrip(n: int)
    ensures ParseDecimal(DecimalString(n)) == n
  {
    if n < 0 {
      DigitsRoundTrip(-n);
      assert DecimalString(n)[1..] == Digits(-n);
    } else {
      DigitsRoundTrip(n);
    }
  }
}
