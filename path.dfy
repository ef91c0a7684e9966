/** Node's `path.extname` for a name without path separators, such as the
    name of a directory entry. */
module Path {
  import opened Js
  import opened JsStrings

  /** The index of the last occurrence of `c` in `s`, if any. */
  function LastIndexOf(s: string, c: char): (r: Option<nat>)
    ensures r.Some? ==> r.value < |s| && s[r.value] == c
    ensures r.Some? ==> forall j :: r.value < j < |s| ==> s[j] != c
    ensures r.None? ==> forall j :: 0 <= j < |s| ==> s[j] != c
  {
    if |s| == 0 then None
    else if s[|s| - 1] == c then Some(|s| - 1)
    else LastIndexOf(s[..|s| - 1], c)
  }

  /** `path.extname(name)`: the text from the last `.` to the end, or the
      empty string when there is no `.`, when the only `.` that could start
      the extension is the first character (a dotfile such as `.yml`), or
      when the name is `..`. */
  function ExtName(name: string): (r: string)
    ensures r == "" || (r[0] == '.' && 0 < |name| - |r| && EndsWith(name, r))
    ensures r != "" ==> forall k :: 1 <= k < |r| ==> r[k] != '.'
    ensures r == "" <==> (forall j :: 0 <= j < |name| ==> name[j] != '.') || LastIndexOf(name, '.') == Some(0) || name == ".."
  {
    match LastIndexOf(name, '.')
    case None => ""
    case Some(i) =>
      if i == 0 || name == ".." then ""
      else
        assert forall k :: 1 <= k < |name[i..]| ==> name[i..][k] == name[i + k];
        name[i..]
  }

  /** An extension that starts with `.` and holds no other `.` is the
      extension of exactly the names that end with it and have at least one
      character before it. */
  lemma ExtNameIs(name: string, ext: string)
    requires |ext| >= 2 && ext[0] == '.'
    requires forall k :: 1 <= k < |ext| ==> ext[k] != '.'
    ensures ExtName(name) == ext <==> |name| > |ext| && EndsWith(name, ext)
  {
    if |name| > |ext| && EndsWith(name, ext) {
      var i := |name| - |ext|;
      assert name[i] == ext[0];
      forall j | i < j < |name| ensures name[j] != '.' {
        assert name[j] == name[i..][j - i] == ext[j - i];
      }
      assert LastIndexOf(name, '.') == Some(i) by {
        var r := LastIndexOf(name, '.');
        assert r.Some?;
        assert r.value >= i;
      }
      assert name != "..";
    }
  }
}
