/** The last-updated annotator of rust-book-cn/last-updated.js: the page key,
  * the locale test, and the insertion, update or removal of the one
  * `.last-updated` child of `main`. */
module LastUpdated {
  import opened Text
  import opened Dom

  /** The class that marks the annotation element. */
  const AnnotationClass := "last-updated"

  /** The annotation's fixed text before the date: "本页最后更新：". */
  const StampPrefix := "\U{672C}\U{9875}\U{6700}\U{540E}\U{66F4}\U{65B0}\U{FF1A}"

  /** getPageKey up to line 4: the last path segment, or "index.html" when it
    * is empty. */
  function SegmentOrIndex(pathname: string): (seg: string)
    ensures seg != [] && '/' !in seg
    ensures LastSegment(pathname) != [] ==> seg == LastSegment(pathname)
    ensures LastSegment(pathname) == [] ==> seg == "index.html"
  {
    IndexKey("index.html");
    if LastSegment(pathname) == "" then "index.html" else LastSegment(pathname)
  }

  /** `seg.replace(/\.html$/, ".md")`. */
  function HtmlToMd(seg: string): (key: string)
    requires seg != [] && '/' !in seg
    ensures key != [] && '/' !in key && !EndsWith(key, ".html")
    ensures EndsWith(seg, ".html") ==> key == seg[..|seg| - 5] + ".md"
    ensures !EndsWith(seg, ".html") ==> key == seg
  {
    if EndsWith(seg, ".html") then
      var stem := seg[..|seg| - 5];
      assert forall k :: 0 <= k < |stem| ==> stem[k] == seg[k] && seg[k] in seg;
      assert (stem + ".md")[|stem| + 2] == 'd';
      stem + ".md"
    else seg
  }

  /** The default segment's key. */
  lemma IndexKey(seg: string)
    requires seg == "index.html"
    ensures '/' !in seg && HtmlToMd(seg) == "index.md"
  {
    assert seg[..5] == "index" && seg[5..] == ".html";
  }

  /** getPageKey: the last segment of the path, "index.html" for a path ending
    * in `/`, with a final ".html" turned into ".md". The key is never empty,
    * holds no `/`, and never ends in ".html". */
  function PageKey(pathname: string): (key: string)
    ensures key != [] && '/' !in key && !EndsWith(key, ".html")
    ensures LastSegment(pathname) == [] ==> key == "index.md"
    ensures LastSegment(pathname) != [] && EndsWith(LastSegment(pathname), ".html") ==>
      key == LastSegment(pathname)[..|LastSegment(pathname)| - 5] + ".md"
    ensures LastSegment(pathname) != [] && !EndsWith(LastSegment(pathname), ".html") ==>
      key == LastSegment(pathname)
  {
    IndexKey("index.html");
    var seg := SegmentOrIndex(pathname);
    assert seg != [] ==> seg[|seg| - 1] in seg;
    var seg' := if seg == "" || EndsWith(seg, "/") then "index.html" else seg;
    HtmlToMd(seg')
  }

  /** The test on line 5 of getPageKey never holds: line 4 already leaves a
    * non-empty segment without `/`. */
  lemma LineFiveNeverFires(pathname: string)
    ensures var seg := SegmentOrIndex(pathname); seg != "" && !EndsWith(seg, "/")
  {
    var seg := SegmentOrIndex(pathname);
    assert seg != "" ==> seg[|seg| - 1] in seg;
  }

  /** A key is its own key: getPageKey is idempotent. */
  lemma PageKeyIdempotent(pathname: string)
    ensures PageKey(PageKey(pathname)) == PageKey(pathname)
  {
    var key := PageKey(pathname);
    assert forall k :: 0 <= k < |key| ==> key[k] in key;
    DirPrefixUnique(key, []);
  }

  /** A directory-style path gets the index page's key. */
  lemma PageKeyOfDirectory(dir: string)
    requires dir == "/docs/zh/guide/"
    ensures PageKey(dir) == "index.md"
  {
    DirPrefixUnique(dir, dir);
  }

  /** A page path gets its file name with ".md". */
  lemma PageKeyOfPage(page: string, dir: string, seg: string)
    requires dir == "/docs/zh/guide/" && seg == "intro.html" && page == dir + seg
    ensures PageKey(page) == "intro.md"
  {
    AppendSegment(dir, seg);
    assert seg[..5] == "intro" && seg[5..] == ".html";
  }

  /** isChinesePage: "/zh/" in the path wins, then "/en/" means English, and a
    * path with neither counts as Chinese. */
  function IsChinesePage(pathname: string): (zh: bool)
    ensures zh <==> Occurs(pathname, "/zh/") || !Occurs(pathname, "/en/")
  {
    if Contains(pathname, "/zh/") then true
    else if Contains(pathname, "/en/") then false
    else true
  }

  /** The text inject writes, or `None` when the annotation must go: the page
    * is not Chinese, there is no table, or its entry for the page key is
    * missing or empty (falsy). */
  function StampFor(pathname: string, data: Option<map<string, string>>): (stamp: Option<string>)
    ensures stamp.Some? <==>
      IsChinesePage(pathname) && data.Some? && PageKey(pathname) in data.value
      && data.value[PageKey(pathname)] != ""
    ensures stamp.Some? ==>
      |stamp.value| > |StampPrefix| && stamp.value[..|StampPrefix|] == StampPrefix
      && stamp.value[|StampPrefix|..] == data.value[PageKey(pathname)]
  {
    if !IsChinesePage(pathname) then None
    else if data.None? || PageKey(pathname) !in data.value || data.value[PageKey(pathname)] == "" then None
    else Some(StampPrefix + data.value[PageKey(pathname)])
  }

  /** Whether a child of `main` matches `.last-updated`. */
  predicate IsAnnotation(c: Child)
  {
    AnnotationClass in c.classes
  }

  /** The annotation children, in order. */
  function Annotations(cs: seq<Child>): seq<Child>
  {
    if cs == [] then []
    else (if IsAnnotation(cs[0]) then [cs[0]] else []) + Annotations(cs[1..])
  }

  /** The other children, in order. */
  function Others(cs: seq<Child>): seq<Child>
  {
    if cs == [] then []
    else (if IsAnnotation(cs[0]) then [] else [cs[0]]) + Others(cs[1..])
  }

  /** The single-annotation invariant. */
  predicate AtMostOne(cs: seq<Child>)
  {
    |Annotations(cs)| <= 1
  }

  lemma {:induction false} AnnotationsAppend(a: seq<Child>, b: seq<Child>)
    ensures Annotations(a + b) == Annotations(a) + Annotations(b)
  {
    if a == [] {
      assert a + b == b;
    } else {
      assert (a + b)[0] == a[0] && (a + b)[1..] == a[1..] + b;
      AnnotationsAppend(a[1..], b);
      var h := if IsAnnotation(a[0]) then [a[0]] else [];
      assert h + (Annotations(a[1..]) + Annotations(b)) == h + Annotations(a[1..]) + Annotations(b);
    }
  }

  lemma {:induction false} OthersAppend(a: seq<Child>, b: seq<Child>)
    ensures Others(a + b) == Others(a) + Others(b)
  {
    if a == [] {
      assert a + b == b;
    } else {
      assert (a + b)[0] == a[0] && (a + b)[1..] == a[1..] + b;
      OthersAppend(a[1..], b);
      var h := if IsAnnotation(a[0]) then [] else [a[0]];
      assert h + (Others(a[1..]) + Others(b)) == h + Others(a[1..]) + Others(b);
    }
  }

  /** Both filters distribute over concatenation. */
  lemma FilterAppend(a: seq<Child>, b: seq<Child>)
    ensures Annotations(a + b) == Annotations(a) + Annotations(b)
    ensures Others(a + b) == Others(a) + Others(b)
  {
    AnnotationsAppend(a, b);
    OthersAppend(a, b);
  }

  lemma {:induction false} NoAnnotations(cs: seq<Child>)
    requires forall k :: 0 <= k < |cs| ==> !IsAnnotation(cs[k])
    ensures Annotations(cs) == [] && Others(cs) == cs
  {
    if cs != [] {
      NoAnnotations(cs[1..]);
    }
  }

  /** `querySelector(".last-updated")` over the children: the index of the
    * first annotation, or -1 when there is none. */
  function FirstAnnotation(cs: seq<Child>): (r: int)
    ensures -1 <= r < |cs|
    ensures r != -1 ==> IsAnnotation(cs[r])
    ensures forall k :: 0 <= k < |cs| && (r == -1 || k < r) ==> !IsAnnotation(cs[k])
    ensures r == -1 <==> Annotations(cs) == []
    decreases |cs|
  {
    if cs == [] then -1
    else if IsAnnotation(cs[0]) then 0
    else
      var r := FirstAnnotation(cs[1..]);
      if r == -1 then -1 else r + 1
  }

  /** The children around the first annotation. */
  lemma SplitAtFirst(cs: seq<Child>)
    requires FirstAnnotation(cs) != -1
    ensures var i := FirstAnnotation(cs);
      && Annotations(cs) == [cs[i]] + Annotations(cs[i + 1..])
      && Others(cs) == cs[..i] + Others(cs[i + 1..])
  {
    var i := FirstAnnotation(cs);
    assert cs == cs[..i] + ([cs[i]] + cs[i + 1..]);
    AroundAnnotation(cs[..i], cs[i], cs[i + 1..]);
  }

  /** An annotation `x` after children that are not annotations heads the
    * annotations, and those children head the others. */
  lemma AroundAnnotation(pre: seq<Child>, x: Child, post: seq<Child>)
    requires forall k :: 0 <= k < |pre| ==> !IsAnnotation(pre[k])
    requires IsAnnotation(x)
    ensures Annotations(pre + ([x] + post)) == [x] + Annotations(post)
    ensures Others(pre + ([x] + post)) == pre + Others(post)
  {
    var rest := [x] + post;
    assert rest[0] == x && rest[1..] == post;
    assert Annotations(rest) == [x] + Annotations(post);
    assert Others(rest) == Others(post);
    NoAnnotations(pre);
    FilterAppend(pre, rest);
  }

  /** remove() on the children of an existing `main`. */
  function WithoutFirstAnnotation(cs: seq<Child>): (r: seq<Child>)
    ensures Annotations(cs) == [] ==> r == cs
    ensures Annotations(cs) != [] ==> |r| == |cs| - 1
  {
    var i := FirstAnnotation(cs);
    if i == -1 then cs else cs[..i] + cs[i + 1..]
  }

  /** remove() takes out the first annotation, if any, and nothing else. */
  lemma RemoveTakesFirstAnnotation(cs: seq<Child>)
    ensures Others(WithoutFirstAnnotation(cs)) == Others(cs)
    ensures Annotations(WithoutFirstAnnotation(cs))
         == if Annotations(cs) == [] then [] else Annotations(cs)[1..]
    ensures |WithoutFirstAnnotation(cs)| == if Annotations(cs) == [] then |cs| else |cs| - 1
  {
    var i := FirstAnnotation(cs);
    if i != -1 {
      var pre, post := cs[..i], cs[i + 1..];
      assert WithoutFirstAnnotation(cs) == pre + post;
      SplitAtFirst(cs);
      assert Annotations(cs)[1..] == Annotations(post);
      NoAnnotations(pre);
      FilterAppend(pre, post);
    }
  }

  /** The element inject creates: a `div` of class "last-updated". */
  function NewAnnotation(): Child
  {
    Child("div", [AnnotationClass], "")
  }

  /** Lines 30-36 on the children of an existing `main`: reuse the first
    * annotation or append a new one, then set its text. */
  function Annotated(cs: seq<Child>, text: string): (r: seq<Child>)
    ensures |r| == if Annotations(cs) == [] then |cs| + 1 else |cs|
  {
    var i := FirstAnnotation(cs);
    if i == -1 then cs + [NewAnnotation().(text := text)]
    else cs[i := cs[i].(text := text)]
  }

  /** With no annotation yet, exactly one new one is appended as the last child. */
  lemma AnnotateAppends(cs: seq<Child>, text: string)
    requires Annotations(cs) == []
    ensures var r := Annotated(cs, text);
      && r == cs + [Child("div", [AnnotationClass], text)]
      && Others(r) == Others(cs)
      && Annotations(r) == [Child("div", [AnnotationClass], text)]
  {
    var x := Child("div", [AnnotationClass], text);
    FilterAppend(cs, [x]);
    assert Annotations([x]) == [x] && Others([x]) == [];
  }

  /** An existing annotation is reused in place: the first one gets the text,
    * everything else (other children, later annotations) stays. */
  lemma AnnotateReuses(cs: seq<Child>, text: string)
    requires Annotations(cs) != []
    ensures var r := Annotated(cs, text);
      && |r| == |cs|
      && Others(r) == Others(cs)
      && Annotations(r) == [Annotations(cs)[0].(text := text)] + Annotations(cs)[1..]
    ensures var r, i := Annotated(cs, text), FirstAnnotation(cs);
      && r[i] == cs[i].(text := text)
      && forall k :: 0 <= k < |cs| && k != i ==> r[k] == cs[k]
  {
    var i := FirstAnnotation(cs);
    var x := cs[i].(text := text);
    SplitAtFirst(cs);
    assert Annotated(cs, text) == cs[..i] + ([x] + cs[i + 1..]);
    AroundAnnotation(cs[..i], x, cs[i + 1..]);
  }

  /** inject() on the children of `main`, given what StampFor decided. Without
    * a `main` nothing changes (neither remove() nor the update finds one). */
  function Injected(cs: seq<Child>, stamp: Option<string>, hasMain: bool): (r: seq<Child>)
    ensures !hasMain ==> r == cs
    ensures hasMain && stamp.Some? ==> |r| == if Annotations(cs) == [] then |cs| + 1 else |cs|
    ensures hasMain && stamp.None? ==> |r| == if Annotations(cs) == [] then |cs| else |cs| - 1
  {
    if !hasMain then cs
    else if stamp.None? then WithoutFirstAnnotation(cs)
    else Annotated(cs, stamp.value)
  }

  /** inject() keeps the single-annotation invariant, never touches the other
    * children, leaves exactly one annotation (carrying the stamp) when the
    * annotation applies and none when it does not. */
  lemma InjectKeepsOneAnnotation(cs: seq<Child>, stamp: Option<string>, hasMain: bool)
    requires AtMostOne(cs)
    ensures var r := Injected(cs, stamp, hasMain);
      && AtMostOne(r)
      && Others(r) == Others(cs)
      && (!hasMain ==> r == cs)
      && (hasMain && stamp.None? ==> Annotations(r) == [])
      && (hasMain && stamp.Some? ==> |Annotations(r)| == 1 && Annotations(r)[0].text == stamp.value)
  {
    RemoveTakesFirstAnnotation(cs);
    if stamp.Some? {
      if Annotations(cs) == [] {
        AnnotateAppends(cs, stamp.value);
      } else {
        AnnotateReuses(cs, stamp.value);
      }
    }
  }

  /** Annotating twice with the same text is annotating once. */
  lemma AnnotateTwice(cs: seq<Child>, text: string)
    ensures Annotated(Annotated(cs, text), text) == Annotated(cs, text)
  {
    var i := FirstAnnotation(cs);
    var r := Annotated(cs, text);
    var j := if i == -1 then |cs| else i;
    assert r[..j] == cs[..j];
    assert IsAnnotation(r[j]) && r[j].text == text;
    assert forall k :: 0 <= k < j ==> !IsAnnotation(r[k]);
  }

  /** inject() is idempotent: a second call leaves the children as the first
    * left them, provided there was at most one annotation to remove. */
  lemma InjectIdempotent(cs: seq<Child>, stamp: Option<string>, hasMain: bool)
    requires stamp.Some? || AtMostOne(cs)
    ensures Injected(Injected(cs, stamp, hasMain), stamp, hasMain) == Injected(cs, stamp, hasMain)
  {
    if hasMain {
      if stamp.Some? {
        AnnotateTwice(cs, stamp.value);
      } else {
        RemoveTakesFirstAnnotation(cs);
        var r := WithoutFirstAnnotation(cs);
        assert FirstAnnotation(r) == -1;
      }
    }
  }

  /** Two child lists differ as a `childList` observer sees them: a child was
    * added or removed. A text change inside a child is a subtree mutation,
    * which the observer (no `subtree` option) does not report. */
  predicate ChildListChanged(before: seq<Child>, after: seq<Child>)
  {
    |before| != |after|
    || exists k :: 0 <= k < |before| && (before[k].tag != after[k].tag || before[k].classes != after[k].classes)
  }

  /** What the `childList` observer reports: appending a child or removing one
    * is a change, rewriting a child's text in place is not. */
  lemma ChildListReports(cs: seq<Child>, x: Child, i: int, text: string)
    ensures ChildListChanged(cs, cs + [x])
    ensures 0 <= i < |cs| ==> ChildListChanged(cs, cs[..i] + cs[i + 1..])
    ensures 0 <= i < |cs| ==> !ChildListChanged(cs, cs[i := cs[i].(text := text)])
  {
  }

  /** The children after inject() and the further inject() calls the observer
    * schedules, one per reported mutation, for at most `rounds` of them. */
  function AfterObserver(cs: seq<Child>, stamp: Option<string>, hasMain: bool, rounds: nat): (r: seq<Child>)
    ensures AtMostOne(cs) ==> AtMostOne(r) && Others(r) == Others(cs)
    decreases rounds
  {
    var next := Injected(cs, stamp, hasMain);
    assert AtMostOne(cs) ==> AtMostOne(next) && Others(next) == Others(cs) by {
      if AtMostOne(cs) {
        InjectKeepsOneAnnotation(cs, stamp, hasMain);
      }
    }
    if rounds == 0 || !ChildListChanged(cs, next) then next
    else AfterObserver(next, stamp, hasMain, rounds - 1)
  }

  /** The observer loop settles after one extra round: however many rounds are
    * allowed, the result is that of a single inject(). */
  lemma {:induction false} ObserverSettles(cs: seq<Child>, stamp: Option<string>, hasMain: bool, rounds: nat)
    requires stamp.Some? || AtMostOne(cs)
    ensures AfterObserver(cs, stamp, hasMain, rounds) == Injected(cs, stamp, hasMain)
  {
    var next := Injected(cs, stamp, hasMain);
    if rounds > 0 && ChildListChanged(cs, next) {
      InjectIdempotent(cs, stamp, hasMain);
      assert !ChildListChanged(next, next);
      assert AfterObserver(next, stamp, hasMain, rounds - 1) == Injected(next, stamp, hasMain);
    }
  }

  /** The page as the annotator sees it. */
  class Annotator {
    /** `window.location.pathname`, which every inject() reads afresh: a
      * committed locale switch (`history.pushState`) changes it, so the
      * observer's re-inject sees the new locale. */
    var pathname: string
    /** `window.LAST_UPDATED_DATA`; `None` when the page defines none. */
    const data: Option<map<string, string>>
    /** Whether the document has a `main` element. */
    const hasMain: bool
    /** The children of `main`, in order. */
    var children: seq<Child>

    constructor (pathname: string, data: Option<map<string, string>>, hasMain: bool, children: seq<Child>)
      ensures this.pathname == pathname && this.data == data && this.hasMain == hasMain
      ensures this.children == children
    {
      this.pathname := pathname;
      this.data := data;
      this.hasMain := hasMain;
      this.children := children;
    }

    /** remove(): the first `.last-updated` child of `main`, if any, is gone. */
    method Remove()
      modifies this`children
      ensures children == if hasMain then WithoutFirstAnnotation(old(children)) else old(children)
    {
      if !hasMain {
        return;
      }
      var i := FirstAnnotation(children);
      if i != -1 {
        children := children[..i] + children[i + 1..];
      }
    }

    /** inject(). */
    method Inject()
      modifies this`children
      ensures children == Injected(old(children), StampFor(pathname, data), hasMain)
      ensures AtMostOne(old(children)) ==> AtMostOne(children)
    {
      var stamp := StampFor(pathname, data);
      if AtMostOne(children) {
        InjectKeepsOneAnnotation(children, stamp, hasMain);
      }
      if stamp.None? {
        Remove();
        return;
      }
      if !hasMain {
        return;
      }
      var i := FirstAnnotation(children);
      if i == -1 {
        var el := NewAnnotation();
        children := children + [el];
        i := |children| - 1;
      }
      children := children[i := children[i].(text := stamp.value)];
    }
  }
}
