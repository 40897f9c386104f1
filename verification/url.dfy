/** The two parts of `window.location` the switcher reads from `href`. */
module Url {
  import opened Text

  /** `href.split("#")[0]`: everything before the first `#`. */
  function BeforeHash(href: string): (base: string)
    ensures |base| <= |href| && base == href[..|base|]
    ensures '#' !in base
    ensures |base| < |href| ==> href[|base|] == '#'
  {
    var i := IndexOf(href, "#");
    if i == -1 then
      assert forall k :: 0 <= k < |href| ==> href[k..k + 1] == [href[k]] && !OccursAt(href, "#", k);
      href
    else
      assert forall k :: 0 <= k < i ==> href[k..k + 1] == [href[k]] && !OccursAt(href, "#", k);
      assert forall k :: 0 <= k < i ==> href[..i][k] == href[k];
      assert href[i..i + 1] == "#";
      href[..i]
  }

  /** `location.hash`: the text from the first `#` on, except that an empty
    * fragment (`href` ending in its first `#`) reads as the empty string. */
  function Hash(href: string): (h: string)
    ensures h == [] || (|h| >= 2 && h[0] == '#' && BeforeHash(href) + h == href)
    ensures h == [] ==> href == BeforeHash(href) || href == BeforeHash(href) + "#"
  {
    var base := BeforeHash(href);
    if |href| - |base| <= 1 then [] else href[|base|..]
  }

  /** The pre-hash part ends at the first `#`. */
  lemma BeforeHashAt(href: string, i: nat)
    requires i < |href| && href[i] == '#' && '#' !in href[..i]
    ensures BeforeHash(href) == href[..i]
  {
    var b := BeforeHash(href);
    assert forall k :: 0 <= k < |b| ==> href[k] == b[k] && b[k] in b;
    assert forall k :: 0 <= k < i ==> href[k] == href[..i][k] && href[..i][k] in href[..i];
  }

  /** A string without `#` is its own pre-hash part. */
  lemma BeforeHashOfPlain(s: string)
    requires '#' !in s
    ensures BeforeHash(s) == s
  {
    var b := BeforeHash(s);
    assert forall k :: 0 <= k < |s| ==> s[k] in s;
  }

  /** Writing `base + Hash(href)` for a `base` without `#` keeps `base` as the
    * pre-hash part and keeps the hash: the hash survives a switch verbatim. */
  lemma {:induction false} HashCarriedOver(base: string, href: string)
    requires '#' !in base
    ensures BeforeHash(base + Hash(href)) == base
    ensures Hash(base + Hash(href)) == Hash(href)
  {
    var h := Hash(href);
    var u := base + h;
    var b := BeforeHash(u);
    if h == [] {
      assert u == base;
      BeforeHashOfPlain(base);
    } else {
      assert u[|base|] == '#';
      assert forall k :: 0 <= k < |b| ==> u[k] == b[k] && b[k] in b;
      assert forall k :: 0 <= k < |base| ==> u[k] == base[k] && base[k] in base;
      assert b == base;
    }
  }
}
