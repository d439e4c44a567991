/** The string operations `render` relies on: `String.prototype.trim`,
    `String.prototype.replace` with a string pattern (first literal match,
    `$` patterns in the replacement expanded), and the line terminators the
    regular-expression `.` does not match. */
module TextOps {
  import opened JsValues

  /** The characters `.` in a regular expression does not match. */
  predicate IsLineTerminator(c: char) {
    c == '\n' || c == '\r' || c == '\U{2028}' || c == '\U{2029}'
  }

  /** The characters `trim` removes: white space and line terminators. */
  predicate IsWhitespace(c: char) {
    || c == '\t' || c == '\U{000B}' || c == '\U{000C}' || c == ' '
    || c == '\U{00A0}' || c == '\U{FEFF}' || c == '\U{1680}'
    || ('\U{2000}' <= c <= '\U{200A}') || c == '\U{202F}' || c == '\U{205F}' || c == '\U{3000}'
    || IsLineTerminator(c)
  }

  predicate AllWhitespace(s: string) {
    forall k :: 0 <= k < |s| ==> IsWhitespace(s[k])
  }

  /** The first position at or after `i` that does not hold white space. */
  function SkipSpace(s: string, i: nat): (n: nat)
    requires i <= |s|
    ensures i <= n <= |s| && AllWhitespace(s[i..n])
    ensures n < |s| ==> !IsWhitespace(s[n])
    decreases |s| - i
  {
    if i == |s| || !IsWhitespace(s[i]) then i else SkipSpace(s, i + 1)
  }

  /** The end of `s[..j]` once its trailing white space is dropped. */
  function SkipSpaceBack(s: string, j: nat): (n: nat)
    requires j <= |s|
    ensures n <= j && AllWhitespace(s[n..j])
    ensures n > 0 ==> !IsWhitespace(s[n - 1])
  {
    if j == 0 || !IsWhitespace(s[j - 1]) then j
    else
      var n := SkipSpaceBack(s, j - 1);
      assert s[n..j] == s[n..j - 1] + [s[j - 1]];
      n
  }

  /** `r` is `s[a..]` up to trailing white space, and `s` holds only white
      space before `a` and after `r`. */
  predicate SpaceAround(s: string, a: nat, r: string) {
    && a + |r| <= |s| && s[a..a + |r|] == r
    && AllWhitespace(s[..a]) && AllWhitespace(s[a + |r|..])
  }

  /** `s.trim()`: `s` without its leading and trailing white space. */
  function Trim(s: string): (r: string)
    ensures r != [] ==> !IsWhitespace(r[0]) && !IsWhitespace(r[|r| - 1])
    ensures exists a: nat :: SpaceAround(s, a, r)
  {
    var a := SkipSpace(s, 0);
    var b := SkipSpaceBack(s, |s|);
    assert s[..a] == s[0..a] && s[b..] == s[b..|s|];
    if a < b then
      assert SpaceAround(s, a, s[a..b]);
      s[a..b]
    else
      assert a == |s|;
      assert SpaceAround(s, |s|, []);
      []
  }

  /** Trimming a string without surrounding white space changes nothing,
      and trimming twice is trimming once. */
  lemma TrimKeeps(s: string)
    requires s == [] || (!IsWhitespace(s[0]) && !IsWhitespace(s[|s| - 1]))
    ensures Trim(s) == s
  {
    var r := Trim(s);
    var a: nat :| SpaceAround(s, a, r);
  }

  lemma TrimIdempotent(s: string)
    ensures Trim(Trim(s)) == Trim(s)
  {
    TrimKeeps(Trim(s));
  }

  /** `pat` occurs in `s` at position `i`. */
  predicate OccursAt(s: string, pat: string, i: nat) {
    i + |pat| <= |s| && s[i..i + |pat|] == pat
  }

  /** `s.indexOf(pat, from)`: the leftmost occurrence at or after `from`. */
  function IndexOf(s: string, pat: string, from: nat): (r: Option<nat>)
    ensures r.Some? ==> from <= r.value && OccursAt(s, pat, r.value)
    ensures r.Some? ==> forall k :: from <= k < r.value ==> !OccursAt(s, pat, k)
    ensures r.None? ==> forall k :: from <= k ==> !OccursAt(s, pat, k)
    decreases |s| - from
  {
    if from + |pat| > |s| then None
    else if OccursAt(s, pat, from) then Some(from)
    else IndexOf(s, pat, from + 1)
  }

  /** The replacement text of `replace` with a string pattern: `$$`, `$&`,
      `` $` `` and `$'` stand for a dollar sign, the match, the text before it
      and the text after it; with no capture groups every other `$` is
      literal. */
  function Expand(rep: string, before: string, matched: string, after: string): (r: string)
    ensures '$' !in rep ==> r == rep
    decreases |rep|
  {
    if rep == [] then []
    else if rep[0] == '$' && |rep| >= 2 && rep[1] in "$&`'" then
      var part := match rep[1]
        case '$' => "$"
        case '&' => matched
        case '`' => before
        case _ => after;
      part + Expand(rep[2..], before, matched, after)
    else
      [rep[0]] + Expand(rep[1..], before, matched, after)
  }

  /** `s.replace(pat, rep)` for a string `pat`: only the leftmost literal
      occurrence is replaced; without one, `s` is returned. */
  function ReplaceFirst(s: string, pat: string, rep: string): (r: string)
    ensures IndexOf(s, pat, 0).None? ==> r == s
  {
    match IndexOf(s, pat, 0)
    case None => s
    case Some(i) =>
      s[..i] + Expand(rep, s[..i], pat, s[i + |pat|..]) + s[i + |pat|..]
  }

  /** The leftmost occurrence, once it is known, and what replacing it gives. */
  lemma IndexOfFirst(s: string, pat: string, i: nat)
    requires OccursAt(s, pat, i) && forall k :: 0 <= k < i ==> !OccursAt(s, pat, k)
    ensures IndexOf(s, pat, 0) == Some(i)
  {
  }

  lemma ReplaceFirstAt(s: string, pat: string, rep: string, i: nat)
    requires IndexOf(s, pat, 0) == Some(i) && '$' !in rep
    ensures ReplaceFirst(s, pat, rep) == s[..i] + rep + s[i + |pat|..]
  {
  }

  /** Replacing a string by itself changes nothing, provided it holds no `$`
      the replacement would expand. */
  lemma ReplaceWithItself(s: string, pat: string)
    requires '$' !in pat
    ensures ReplaceFirst(s, pat, pat) == s
  {
    match IndexOf(s, pat, 0)
    case None =>
    case Some(i) =>
      assert s == s[..i] + s[i..i + |pat|] + s[i + |pat|..];
  }

  /** Replacing the whole string: the result is the replacement, expanded. */
  lemma ReplaceWhole(s: string, rep: string)
    requires '$' !in rep
    ensures ReplaceFirst(s, s, rep) == rep
  {
    assert s[0..|s|] == s;
    IndexOfFirst(s, s, 0);
    ReplaceFirstAt(s, s, rep, 0);
    assert s[..0] == [] && s[|s|..] == [];
  }

  /** The same for any replacement: it is expanded with the whole string as
      the match and nothing before or after it. */
  lemma ReplaceWholeExpanded(s: string, rep: string)
    ensures ReplaceFirst(s, s, rep) == Expand(rep, [], s, [])
  {
    assert s[0..|s|] == s;
    IndexOfFirst(s, s, 0);
    assert s[..0] == [] && s[|s|..] == [];
  }

  /** `action.match(/\((.*)\)/)` succeeds: an opening parenthesis with a
      closing one after it on the same line. */
  predicate IsCallForm(action: string) {
    exists i, j :: 0 <= i < j < |action| && action[i] == '(' && action[j] == ')'
                   && forall k :: i < k < j ==> !IsLineTerminator(action[k])
  }
}
