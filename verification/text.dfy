/** String operations the two scripts lean on (`indexOf`, `replace` with a
  * string pattern, `split("/").pop()`, the regular expression `/[^/]*$/`,
  * `endsWith`), over `string`, a sequence of characters. */
module Text {

  /** `pat` occurs in `s` starting at index `i`. */
  predicate OccursAt(s: string, pat: string, i: int)
  {
    0 <= i && i + |pat| <= |s| && s[i..i + |pat|] == pat
  }

  /** `pat` occurs somewhere in `s`: the meaning of `s.indexOf(pat) !== -1`. */
  ghost predicate Occurs(s: string, pat: string)
  {
    exists i :: OccursAt(s, pat, i)
  }

  /** The first occurrence of `pat` in `s` at or after `k`, or -1. */
  function IndexFrom(s: string, pat: string, k: nat): (r: int)
    requires k <= |s|
    ensures r == -1 || (k <= r && OccursAt(s, pat, r))
    ensures forall i :: k <= i && (r == -1 || i < r) ==> !OccursAt(s, pat, i)
    decreases |s| - k
  {
    if k + |pat| > |s| then -1
    else if s[k..k + |pat|] == pat then k
    else IndexFrom(s, pat, k + 1)
  }

  /** JavaScript's `s.indexOf(pat)`: the least index where `pat` occurs, or -1. */
  function IndexOf(s: string, pat: string): (r: int)
    ensures r == -1 <==> !Occurs(s, pat)
    ensures r != -1 ==> OccursAt(s, pat, r) && forall i :: 0 <= i < r ==> !OccursAt(s, pat, i)
  {
    IndexFrom(s, pat, 0)
  }

  /** Two strings of one length that agree before `i`, on `[i, i + n)` and
    * after it are equal. */
  lemma EqualByParts(x: string, y: string, i: int, n: int)
    requires 0 <= i && 0 <= n && i + n <= |x| == |y|
    requires x[..i] == y[..i] && x[i..i + n] == y[i..i + n] && x[i + n..] == y[i + n..]
    ensures x == y
  {
    assert x == x[..i] + x[i..i + n] + x[i + n..];
    assert y == y[..i] + y[i..i + n] + y[i + n..];
  }

  /** An occurrence with none before it is the one IndexOf finds. */
  lemma IndexOfAt(s: string, pat: string, i: int)
    requires OccursAt(s, pat, i)
    requires forall k :: 0 <= k < i ==> !OccursAt(s, pat, k)
    ensures IndexOf(s, pat) == i
  {
  }

  /** No occurrence starts before `i` when `pat[m]` is missing from `s[..i + m]`. */
  lemma NoOccurrenceBefore(s: string, pat: string, i: nat, m: nat)
    requires m < |pat| && i + m <= |s| && pat[m] !in s[..i + m]
    ensures forall k :: 0 <= k < i ==> !OccursAt(s, pat, k)
  {
  }

  /** `s.indexOf(pat) !== -1`. */
  function Contains(s: string, pat: string): (b: bool)
    ensures b <==> Occurs(s, pat)
  {
    IndexOf(s, pat) != -1
  }

  /** JavaScript's `s.replace(pat, rep)` for a string `pat` (and a `rep` without
    * `$` patterns): only the first occurrence is replaced. */
  function ReplaceFirst(s: string, pat: string, rep: string): (r: string)
    ensures !Occurs(s, pat) ==> r == s
    ensures Occurs(s, pat) ==>
      var i := IndexOf(s, pat);
      |r| == |s| - |pat| + |rep| && r[..i] == s[..i] && OccursAt(r, rep, i)
      && r[i + |rep|..] == s[i + |pat|..]
  {
    var i := IndexOf(s, pat);
    if i == -1 then s else s[..i] + rep + s[i + |pat|..]
  }

  /** Replacing leaves out a character that neither `s` nor `rep` holds. */
  lemma ReplaceFirstAvoids(s: string, pat: string, rep: string, c: char)
    requires c !in s && c !in rep
    ensures c !in ReplaceFirst(s, pat, rep)
  {
    var i := IndexOf(s, pat);
    if i != -1 {
      var head, rest := s[..i], s[i + |pat|..];
      assert forall k :: 0 <= k < |head| ==> head[k] == s[k];
      assert forall k :: 0 <= k < |rest| ==> rest[k] == s[i + |pat| + k];
    }
  }

  /** `s.replace(/[^/]*$/, "")`: `s` cut just after its last `/`, or the empty
    * string when `s` has no `/`. */
  function DirPrefix(s: string): (r: string)
    ensures |r| <= |s| && r == s[..|r|]
    ensures r == [] || r[|r| - 1] == '/'
    ensures forall k :: |r| <= k < |s| ==> s[k] != '/'
    decreases |s|
  {
    if s == [] then []
    else if s[|s| - 1] == '/' then s
    else DirPrefix(s[..|s| - 1])
  }

  /** The three properties in DirPrefix's contract determine its result. */
  lemma DirPrefixUnique(s: string, q: string)
    requires |q| <= |s| && q == s[..|q|]
    requires q == [] || q[|q| - 1] == '/'
    requires forall k :: |q| <= k < |s| ==> s[k] != '/'
    ensures DirPrefix(s) == q
  {
    var r := DirPrefix(s);
    assert q != [] ==> s[|q| - 1] == '/';
    assert r != [] ==> s[|r| - 1] == '/';
  }

  /** `s.split("/").pop()`: what follows the last `/` (all of `s` without one). */
  function LastSegment(s: string): (seg: string)
    ensures '/' !in seg
    ensures DirPrefix(s) + seg == s
  {
    var seg := s[|DirPrefix(s)|..];
    assert forall k :: 0 <= k < |seg| ==> seg[k] == s[|DirPrefix(s)| + k];
    seg
  }

  /** Past the replaced piece, a same-length replacement leaves `s` as it was. */
  lemma ReplaceKeepsTail(s: string, pat: string, rep: string)
    requires |pat| == |rep| && Occurs(s, pat)
    ensures var i := IndexOf(s, pat);
      |ReplaceFirst(s, pat, rep)| == |s|
      && forall k :: i + |pat| <= k < |s| ==> ReplaceFirst(s, pat, rep)[k] == s[k]
  {
    var i, r := IndexOf(s, pat), ReplaceFirst(s, pat, rep);
    var tail := r[i + |rep|..];
    assert tail == s[i + |pat|..];
    assert forall k :: i + |pat| <= k < |s| ==> r[k] == tail[k - i - |pat|];
  }

  /** The last character of the replaced window is `pat`'s before and `rep`'s
    * after. */
  lemma ReplaceWindowEnd(s: string, pat: string, rep: string)
    requires |pat| == |rep| && |pat| > 0 && Occurs(s, pat)
    ensures var i := IndexOf(s, pat);
      s[i + |pat| - 1] == pat[|pat| - 1] && ReplaceFirst(s, pat, rep)[i + |pat| - 1] == rep[|rep| - 1]
  {
    var i, r := IndexOf(s, pat), ReplaceFirst(s, pat, rep);
    assert s[i..i + |pat|][|pat| - 1] == s[i + |pat| - 1];
    assert r[i..i + |rep|][|rep| - 1] == r[i + |pat| - 1];
  }

  /** A segment without `/` appended to a directory is that directory's last
    * segment. */
  lemma AppendSegment(dir: string, seg: string)
    requires dir == [] || dir[|dir| - 1] == '/'
    requires '/' !in seg
    ensures DirPrefix(dir + seg) == dir && LastSegment(dir + seg) == seg
  {
    var r := dir + seg;
    assert r[..|dir|] == dir;
    assert forall k :: |dir| <= k < |r| ==> r[k] == seg[k - |dir|] && seg[k - |dir|] in seg;
    DirPrefixUnique(r, dir);
    assert r[|dir|..] == seg;
  }

  /** Two strings of one length that agree from a common `/` on have the same
    * last segment. */
  lemma SameTailSameLastSegment(s: string, r: string, m: nat)
    requires |r| == |s| && 0 < m <= |s| && s[m - 1] == '/' && r[m - 1] == '/'
    requires forall k :: m <= k < |s| ==> r[k] == s[k]
    ensures LastSegment(r) == LastSegment(s)
  {
    var q := DirPrefix(s);
    assert |q| >= m;
    assert r[|q| - 1] == '/';
    DirPrefixUnique(r, r[..|q|]);
    assert r[|q|..] == s[|q|..];
  }

  /** Replacing one `/`-terminated piece by another of the same length keeps
    * what follows the last `/`. */
  lemma ReplaceKeepsLastSegment(s: string, pat: string, rep: string)
    requires |pat| == |rep| && |pat| > 0
    requires pat[|pat| - 1] == '/' && rep[|rep| - 1] == '/'
    ensures LastSegment(ReplaceFirst(s, pat, rep)) == LastSegment(s)
  {
    var i := IndexOf(s, pat);
    if i != -1 {
      var r := ReplaceFirst(s, pat, rep);
      var n := |pat|;
      ReplaceKeepsTail(s, pat, rep);
      ReplaceWindowEnd(s, pat, rep);
      SameTailSameLastSegment(s, r, i + n);
    }
  }

  /** `s.endsWith(suffix)`. */
  predicate EndsWith(s: string, suffix: string)
  {
    |suffix| <= |s| && s[|s| - |suffix|..] == suffix
  }
}
