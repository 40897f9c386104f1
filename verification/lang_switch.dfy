/** The locale switcher of lang-switch.js: the two-valued locale state, the
  * sibling-locale URL, the toggle's label, the splice of a fetched page into
  * the live one, and the fade, fetch, commit-or-fallback protocol of a click. */
module LangSwitch {
  import opened Text
  import opened Url
  import opened Dom

  /** The two locales of the documentation site. */
  datatype Lang = En | Zh

  /** The locale's code as it appears in paths. */
  function Code(l: Lang): string
  {
    match l
    case En => "en"
    case Zh => "zh"
  }

  /** `"/" + lang + "/"`, the path segment that marks a locale tree. */
  function Segment(l: Lang): (seg: string)
    ensures |seg| == 4 && seg[0] == '/' && seg[3] == '/' && seg[1] != '/' && seg[2] != '/'
    ensures '#' !in seg
  {
    "/" + Code(l) + "/"
  }

  /** The complement locale: `currentLang === "en" ? "zh" : "en"`. */
  function Other(l: Lang): (o: Lang)
    ensures o != l
  {
    if l == En then Zh else En
  }

  /** The locale a page starts in: "zh" when its path contains "/zh/", else "en". */
  function InitialLang(pathname: string): (cur: Lang)
    ensures cur == Zh <==> Occurs(pathname, Segment(Zh))
  {
    assert Segment(Zh) == "/zh/";
    if Contains(pathname, "/zh/") then Zh else En
  }

  /** getTargetHref: the part of `href` before its first `#`, with the first
    * `/cur/` replaced by `/tgt/`. Only that one window changes. */
  function TargetHref(href: string, cur: Lang, tgt: Lang): (r: string)
    ensures '#' !in r
    ensures |r| == |BeforeHash(href)|
    ensures !Occurs(BeforeHash(href), Segment(cur)) ==> r == BeforeHash(href)
    ensures Occurs(BeforeHash(href), Segment(cur)) ==>
      var i := IndexOf(BeforeHash(href), Segment(cur));
      OccursAt(r, Segment(tgt), i)
      && r[..i] == BeforeHash(href)[..i]
      && r[i + 4..] == BeforeHash(href)[i + 4..]
  {
    ReplaceFirstAvoids(BeforeHash(href), Segment(cur), Segment(tgt), '#');
    ReplaceFirst(BeforeHash(href), Segment(cur), Segment(tgt))
  }

  /** The text and tooltip of the #lang-toggle button. */
  datatype Label = Label(text: string, title: string)

  /** Each locale's name for itself. */
  function Name(l: Lang): string
  {
    match l
    case En => "English"
    case Zh => "\U{4E2D}\U{6587}"
  }

  /** "Switch to ", written in the language being switched to. */
  function SwitchPrompt(l: Lang): string
  {
    match l
    case En => "Switch to "
    case Zh => "\U{5207}\U{6362}\U{5230}"
  }

  /** The toggle's label while `cur` is the current locale: it names the
    * locale a click switches to, and its tooltip is a prompt written in that
    * locale's own language. */
  function LabelFor(cur: Lang): (lbl: Label)
    ensures lbl.text == Name(Other(cur))
    ensures lbl.title == SwitchPrompt(Other(cur)) + lbl.text
  {
    if cur == En then Label("\U{4E2D}\U{6587}", "\U{5207}\U{6362}\U{5230}\U{4E2D}\U{6587}")
    else Label("English", "Switch to English")
  }

  /** The four parts of the live page a switch rewrites: `document.title`, the
    * children of `#mdbook-content main`, the text of `.menu-title`, and the src
    * attribute of the `.sidebar-iframe-outer` frame. `None` is an absent element. */
  datatype Content = Content(
    title: string,
    main: Option<seq<Child>>,
    menuTitle: Option<string>,
    tocSrc: Option<string>)

  /** A fetched sibling page, parsed: the text of its `<title>`, the children
    * of its `#mdbook-content main`, the text of its `.menu-title`. */
  datatype Page = Page(title: Option<string>, main: Option<seq<Child>>, menuTitle: Option<string>)

  /** What `fetch(targetUrl)` settles to: a response (its status and its page)
    * or a rejection. */
  datatype FetchOutcome = Fetched(status: int, page: Page) | Rejected

  /** `res.ok`: a 2xx status. */
  function IsOk(status: int): (ok: bool)
    ensures ok <==> status / 100 == 2
  {
    200 <= status <= 299
  }

  /** The TOC frame's new src: `target` cut after its last `/`, then `src`.
    * A `src` without `/` lands in the target's directory, as its last segment. */
  function TocUrl(target: string, src: string): (r: string)
    ensures '/' !in src ==> DirPrefix(r) == DirPrefix(target) && LastSegment(r) == src
  {
    var r := DirPrefix(target) + src;
    assert '/' !in src ==> DirPrefix(r) == DirPrefix(target) && LastSegment(r) == src by {
      if '/' !in src {
        AppendSegment(DirPrefix(target), src);
      }
    }
    r
  }

  /** swapContent's effect on the live page: each part is overwritten from the
    * fetched page only where both copies exist (the title only needs the
    * fetched one); the TOC frame is pointed at the TOC beside `target` (the
    * target href as computed before the locale flip), using `tocRel`, the
    * frame's src as the page was loaded. No element is added or removed. */
  function Splice(live: Content, page: Page, target: string, tocRel: string): (c: Content)
    ensures c.main.Some? == live.main.Some?
    ensures c.menuTitle.Some? == live.menuTitle.Some?
    ensures c.tocSrc.Some? == live.tocSrc.Some?
  {
    Content(
      if page.title.Some? then page.title.value else live.title,
      if live.main.Some? && page.main.Some? then page.main else live.main,
      if live.menuTitle.Some? && page.menuTitle.Some? then page.menuTitle else live.menuTitle,
      if live.tocSrc.Some? then Some(TocUrl(target, tocRel)) else None)
  }

  /** Splicing the same page again changes nothing. */
  lemma SpliceIdempotent(live: Content, page: Page, target: string, tocRel: string)
    ensures Splice(Splice(live, page, target, tocRel), page, target, tocRel)
         == Splice(live, page, target, tocRel)
  {
  }

  /** As written, splicing the same page again leaves title, main and menu
    * title as they were, but puts the target's directory in front of the
    * frame's src once more: swapContent is not idempotent. */
  lemma SpliceAsWrittenAgain(live: Content, page: Page, target: string)
    ensures var once := SpliceAsWritten(live, page, target);
      var twice := SpliceAsWritten(once, page, target);
      && twice.(tocSrc := None) == once.(tocSrc := None)
      && twice.tocSrc.Some? == live.tocSrc.Some?
      && (twice.tocSrc.Some? ==> twice.tocSrc.value == DirPrefix(target) + once.tocSrc.value)
      && (live.tocSrc.Some? && DirPrefix(target) != [] ==> twice != once)
  {
  }

  /** With the load-time src, the TOC frame after a switch depends only on
    * that switch's target, never on earlier switches. */
  lemma TocSrcHistoryFree(live: Content, p1: Page, t1: string, p2: Page, t2: string, tocRel: string)
    ensures Splice(Splice(live, p1, t1, tocRel), p2, t2, tocRel).tocSrc
         == Splice(live, p2, t2, tocRel).tocSrc
  {
  }

  /** swapContent as written at lang-switch.js:43-45: the path is appended to
    * the frame's current src, which after one switch is already the absolute
    * URL written by the previous switch. */
  function SpliceAsWritten(live: Content, page: Page, target: string): (c: Content)
    ensures c.(tocSrc := None) == Splice(live, page, target, "").(tocSrc := None)
    ensures c.tocSrc.Some? == live.tocSrc.Some?
    ensures c.tocSrc.Some? ==> c.tocSrc.value == DirPrefix(target) + live.tocSrc.value
  {
    Splice(live, page, target, if live.tocSrc.Some? then live.tocSrc.value else "")
  }

  /** As written, a second switch nests the first switch's directory inside the
    * second's: the frame no longer names the TOC beside the page. */
  lemma {:induction false} TocSrcCompoundsAsWritten(live: Content, p1: Page, t1: string, p2: Page, t2: string)
    requires live.tocSrc.Some? && DirPrefix(t1) != []
    ensures SpliceAsWritten(SpliceAsWritten(live, p1, t1), p2, t2).tocSrc
         == Some(DirPrefix(t2) + DirPrefix(t1) + live.tocSrc.value)
    ensures SpliceAsWritten(SpliceAsWritten(live, p1, t1), p2, t2).tocSrc
         != Splice(live, p2, t2, live.tocSrc.value).tocSrc
  {
    var once := SpliceAsWritten(live, p1, t1);
    assert once.tocSrc == Some(DirPrefix(t1) + live.tocSrc.value);
    var twice := SpliceAsWritten(once, p2, t2);
    assert twice.tocSrc == Some(DirPrefix(t2) + (DirPrefix(t1) + live.tocSrc.value));
    assert DirPrefix(t2) + (DirPrefix(t1) + live.tocSrc.value)
        == DirPrefix(t2) + DirPrefix(t1) + live.tocSrc.value;
    assert |twice.tocSrc.value| > |DirPrefix(t2) + live.tocSrc.value|;
  }

  /** The concrete case: a page loaded at https://site/en/ch1.html with the
    * frame's src "toc.html", switched to Chinese and back. */
  lemma TocSrcCompoundsExample(live: Content, p: Page)
    requires live.tocSrc == Some("toc.html")
    ensures SpliceAsWritten(SpliceAsWritten(live, p, "https://site/zh/ch1.html"), p, "https://site/en/ch1.html").tocSrc
         == Some("https://site/en/https://site/zh/toc.html")
  {
    DirPrefixUnique("https://site/zh/ch1.html", "https://site/zh/");
    DirPrefixUnique("https://site/en/ch1.html", "https://site/en/");
    NestedExampleText("https://site/en/", "https://site/zh/", "toc.html");
  }

  /** The frame's src the example ends with, spelled out. */
  lemma NestedExampleText(en: string, zh: string, toc: string)
    requires en == "https://site/en/" && zh == "https://site/zh/" && toc == "toc.html"
    ensures en + (zh + toc) == "https://site/en/https://site/zh/toc.html"
  {
  }

  /** The frame's src after the committed switches that pushed `pushed`
    * (oldest first), starting from `src`, as lines 43-45 compute it: each
    * switch puts its target's directory in front of the src the frame had. */
  function NestedToc(pushed: seq<string>, src: string): (r: string)
    decreases |pushed|
  {
    if pushed == [] then src
    else DirPrefix(BeforeHash(pushed[|pushed| - 1])) + NestedToc(pushed[..|pushed| - 1], src)
  }

  /** Switches only ever add in front: the src the frame was loaded with stays
    * at the end of the frame's src. */
  lemma {:induction false} NestedTocKeepsSrc(pushed: seq<string>, src: string)
    ensures var r := NestedToc(pushed, src); |r| >= |src| && r[|r| - |src|..] == src
    decreases |pushed|
  {
    if pushed != [] {
      var d := DirPrefix(BeforeHash(pushed[|pushed| - 1]));
      var rest := NestedToc(pushed[..|pushed| - 1], src);
      NestedTocKeepsSrc(pushed[..|pushed| - 1], src);
      assert NestedToc(pushed, src) == d + rest;
      assert (d + rest)[|d + rest| - |src|..] == rest[|rest| - |src|..];
    }
  }

  /** One more committed switch puts its directory in front. */
  lemma NestedTocSnoc(pushed: seq<string>, u: string, src: string)
    ensures NestedToc(pushed + [u], src) == DirPrefix(BeforeHash(u)) + NestedToc(pushed, src)
  {
    assert (pushed + [u])[..|pushed|] == pushed;
  }

  /** Pushing `target + hash` after prefixing the target's directory to the
    * frame's src keeps the frame's src equal to NestedToc of the new history,
    * and the pushed URL splits back into the target and the old hash. */
  lemma PushExtendsToc(pushed: seq<string>, href: string, current: Lang, target: Lang, src: string)
    ensures var t := TargetHref(href, current, target);
      && DirPrefix(t) + NestedToc(pushed, src) == NestedToc(pushed + [t + Hash(href)], src)
      && BeforeHash(t + Hash(href)) == t && Hash(t + Hash(href)) == Hash(href)
  {
    var t := TargetHref(href, current, target);
    HashCarriedOver(t, href);
    NestedTocSnoc(pushed, t + Hash(href), src);
  }

  /** After one switch the frame names the TOC beside the new page. */
  lemma FirstSwitchTocCorrect(u: string, src: string)
    ensures NestedToc([u], src) == TocUrl(BeforeHash(u), src)
  {
    NestedTocSnoc([], u, src);
    assert [] + [u] == [u];
  }

  /** Two committed switches: both directories, newest first, then `src`. */
  lemma NestedTocTwo(u1: string, u2: string, src: string)
    ensures NestedToc([u1, u2], src) == DirPrefix(BeforeHash(u2)) + DirPrefix(BeforeHash(u1)) + src
  {
    var d1, d2 := DirPrefix(BeforeHash(u1)), DirPrefix(BeforeHash(u2));
    FirstSwitchTocCorrect(u1, src);
    NestedTocSnoc([u1], u2, src);
    assert [u1] + [u2] == [u1, u2];
    assert d2 + (d1 + src) == d2 + d1 + src;
  }

  /** After a second switch the frame no longer names the TOC beside the
    * page: the first switch's directory stays nested inside the second's. */
  lemma SecondSwitchTocNests(u1: string, u2: string, src: string)
    requires DirPrefix(BeforeHash(u1)) != []
    ensures NestedToc([u1, u2], src) != TocUrl(BeforeHash(u2), src)
  {
    var d1, d2 := DirPrefix(BeforeHash(u1)), DirPrefix(BeforeHash(u2));
    NestedTocTwo(u1, u2, src);
    assert |d2 + d1 + src| > |d2 + src|;
  }

  /** The first `/tgt/` of the switched href is the one just written (or, when
    * no `/cur/` was there to substitute, the href holds no `/tgt/` at all). */
  predicate FreshSegmentFirst(href: string, cur: Lang)
  {
    var b := BeforeHash(href);
    var i := IndexOf(b, Segment(cur));
    if i == -1 then !Contains(b, Segment(Other(cur)))
    else IndexOf(TargetHref(href, cur, Other(cur)), Segment(Other(cur))) == i
  }

  /** Two distinct locale segments: "/xy/" shapes differing in their first letter. */
  predicate SegmentPair(P: string, Q: string)
  {
    && |P| == 4 && |Q| == 4
    && P[0] == '/' && P[3] == '/' && Q[0] == '/' && Q[3] == '/'
    && P[1] != '/' && P[2] != '/' && Q[1] != '/' && Q[2] != '/'
    && P[1] != Q[1]
  }

  /** Nothing was substituted: substituting back is the identity exactly when
    * there is no `Q` to find either. */
  lemma ReplaceBackUnsubstituted(b: string, P: string, Q: string)
    requires SegmentPair(P, Q) && IndexOf(b, P) == -1
    ensures ReplaceFirst(ReplaceFirst(b, P, Q), Q, P) == b <==> IndexOf(b, Q) == -1
  {
    var j := IndexOf(b, Q);
    if j != -1 {
      var back := ReplaceFirst(b, Q, P);
      assert OccursAt(back, P, j) && back[j..j + 4][1] == back[j + 1];
      assert b[j..j + 4][1] == b[j + 1];
    }
  }

  /** `P` at `i` was replaced by `Q`: substituting back restores the string
    * exactly when that `Q` is the first one. */
  lemma ReplaceBackSubstituted(b: string, P: string, Q: string)
    requires SegmentPair(P, Q) && IndexOf(b, P) != -1
    ensures var r := ReplaceFirst(b, P, Q);
      ReplaceFirst(r, Q, P) == b <==> IndexOf(r, Q) == IndexOf(b, P)
  {
    var i := IndexOf(b, P);
    var j := IndexOf(ReplaceFirst(b, P, Q), Q);
    if j == i {
      ReplaceBackHitsSame(b, P, Q, i);
    } else {
      ReplaceBackMissesEarlier(b, P, Q, i, j);
    }
  }

  /** When the second substitution hits the `Q` the first one wrote, it writes
    * `P` back over it and the string is restored. */
  lemma ReplaceBackHitsSame(b: string, P: string, Q: string, i: int)
    requires SegmentPair(P, Q) && i == IndexOf(b, P) && i != -1
    requires i == IndexOf(ReplaceFirst(b, P, Q), Q)
    ensures ReplaceFirst(ReplaceFirst(b, P, Q), Q, P) == b
  {
    var r := ReplaceFirst(b, P, Q);
    var back := ReplaceFirst(r, Q, P);
    assert OccursAt(back, P, i) && OccursAt(b, P, i);
    EqualByParts(back, b, i, 4);
  }

  /** When the second substitution hits an earlier `Q`, the letter after the
    * first substitution's slash is left as `Q`'s, so the result differs. */
  lemma ReplaceBackMissesEarlier(b: string, P: string, Q: string, i: int, j: int)
    requires SegmentPair(P, Q) && i == IndexOf(b, P) && i != -1
    requires j == IndexOf(ReplaceFirst(b, P, Q), Q) && j != i
    ensures ReplaceFirst(ReplaceFirst(b, P, Q), Q, P) != b
  {
    var r := ReplaceFirst(b, P, Q);
    SegmentLetters(b, P, i);
    SegmentLetters(r, Q, i);
    SegmentLetters(r, Q, j);
    assert j < i;
    ReplaceKeepsTail(r, Q, P);
    assert ReplaceFirst(r, Q, P)[i + 1] == r[i + 1];
  }

  /** The four letters of a segment found at `i`. */
  lemma SegmentLetters(s: string, pat: string, i: int)
    requires |pat| == 4 && OccursAt(s, pat, i)
    ensures s[i] == pat[0] && s[i + 1] == pat[1] && s[i + 2] == pat[2] && s[i + 3] == pat[3]
  {
    assert s[i..i + 4][0] == s[i] && s[i..i + 4][1] == s[i + 1];
    assert s[i..i + 4][2] == s[i + 2] && s[i..i + 4][3] == s[i + 3];
  }

  /** Switching and switching back restores the pre-hash href exactly when the
    * segment written by the first switch is the first one the second switch
    * finds. */
  lemma RoundTrip(href: string, cur: Lang)
    ensures TargetHref(TargetHref(href, cur, Other(cur)), Other(cur), cur) == BeforeHash(href)
        <==> FreshSegmentFirst(href, cur)
  {
    var P, Q := Segment(cur), Segment(Other(cur));
    assert SegmentPair(P, Q);
    var r := TargetHref(href, cur, Other(cur));
    BeforeHashOfPlain(r);
    if IndexOf(BeforeHash(href), P) == -1 {
      ReplaceBackUnsubstituted(BeforeHash(href), P, Q);
    } else {
      ReplaceBackSubstituted(BeforeHash(href), P, Q);
    }
  }

  /** The common case: an href with `/cur/` and without `/tgt/` comes back
    * unchanged from a switch and a switch back. */
  lemma RoundTripWhenTargetAbsent(href: string, cur: Lang)
    requires Occurs(BeforeHash(href), Segment(cur))
    requires !Occurs(BeforeHash(href), Segment(Other(cur)))
    ensures TargetHref(TargetHref(href, cur, Other(cur)), Other(cur), cur) == BeforeHash(href)
  {
    var P, Q := Segment(cur), Segment(Other(cur));
    var b := BeforeHash(href);
    var r := TargetHref(href, cur, Other(cur));
    var i := IndexOf(b, P);
    forall k | 0 <= k < i
      ensures !OccursAt(r, Q, k)
    {
      TargetBeforeWasThere(b, r, P, Q, i, k);
    }
    RoundTrip(href, cur);
  }

  /** Before the substituted segment, `r` agrees with `b`, so a `Q` starting
    * there in `r` is already a `Q` in `b`. */
  lemma TargetBeforeWasThere(b: string, r: string, P: string, Q: string, i: int, k: int)
    requires SegmentPair(P, Q) && OccursAt(b, P, i) && OccursAt(r, Q, i)
    requires r[..i] == b[..i] && 0 <= k < i
    ensures OccursAt(r, Q, k) ==> OccursAt(b, Q, k)
  {
    if OccursAt(r, Q, k) {
      SegmentLetters(r, Q, k);
      SegmentLetters(r, Q, i);
      SegmentLetters(b, P, i);
      assert k + 3 <= i;
      forall m | 0 <= m < 4
        ensures b[k + m] == Q[m]
      {
        if k + m < i {
          assert b[k + m] == b[..i][k + m] == r[..i][k + m];
        }
      }
      assert b[k..k + 4] == Q;
    }
  }

  /** A path inside both trees, like "/en/zh/x", does not come back: the page
    * starts as "zh", goes to "/en/en/x", and the way back rewrites the first
    * "/en/" instead. */
  lemma RoundTripFailsForNestedLocales(s: string, u: string, w: string)
    requires s == "/en/zh/x" && u == "/en/en/x" && w == "/zh/en/x"
    ensures InitialLang(s) == Zh
    ensures TargetHref(s, Zh, En) == u
    ensures TargetHref(u, En, Zh) == w
  {
    assert Segment(Zh) == "/zh/" && Segment(En) == "/en/";
    BeforeHashOfPlain(s);
    BeforeHashOfPlain(u);
    NoOccurrenceBefore(s, "/zh/", 3, 1);
    assert s[3] == '/' && s[4] == 'z' && s[5] == 'h' && s[6] == '/';
    assert s[3..7] == "/zh/";
    IndexOfAt(s, "/zh/", 3);
    assert s[..3] == u[..3] && s[7..] == u[7..];
    assert u == u[..3] + "/en/" + u[7..];
    assert u[0] == '/' && u[1] == 'e' && u[2] == 'n' && u[3] == '/';
    assert u[0..4] == "/en/";
    IndexOfAt(u, "/en/", 0);
    assert u[4..] == w[4..];
    assert w == "/zh/" + w[4..];
  }

  /** The switcher's state. The closure variables of lang-switch.js become
    * fields, and so do the parts of the page and of `window` it reads and
    * writes. */
  class Switcher {
    var currentLang: Lang
    var targetLang: Lang
    /** `window.location.href`. */
    var href: string
    /** The URLs pushed with `history.pushState`, oldest first. */
    var history: seq<string>
    /** The URL a full navigation (`window.location.href = …`) was started to. */
    var navigation: Option<string>
    /** Whether `#mdbook-content` carries the `lang-fade` class. */
    var fading: bool
    /** Whether the page has a `#mdbook-content` element. */
    const hasContent: bool
    var title: string
    var main: Option<seq<Child>>
    var menuTitle: Option<string>
    var tocSrc: Option<string>
    /** The TOC frame's src as the page was loaded. */
    ghost const loadedToc: string
    /** The #lang-toggle button's label, once the button exists. */
    var button: Option<Label>

    /** Current and target are complementary, the button (if any) is labelled
      * for the current locale, and the TOC frame's src carries one target
      * directory per committed switch in front of the src it was loaded with. */
    ghost predicate Valid()
      reads this`currentLang, this`targetLang, this`button, this`tocSrc, this`history
    {
      && targetLang == Other(currentLang)
      && (button.Some? ==> button.value == LabelFor(currentLang))
      && (tocSrc.Some? ==>
            tocSrc.value == NestedToc(history, loadedToc))
    }

    /** The parts of the page a switch rewrites. */
    function Parts(): Content
      reads this`title, this`main, this`menuTitle, this`tocSrc
    {
      Content(title, main, menuTitle, tocSrc)
    }

    /** getTargetHref, read from the current state. */
    function TargetUrl(): string
      reads this`href, this`currentLang, this`targetLang
    {
      TargetHref(href, currentLang, targetLang)
    }

    /** The script's start (lang-switch.js:2-4): the locales come from the path. */
    constructor (href: string, pathname: string, parts: Content, hasContent: bool)
      ensures Valid()
      ensures currentLang == InitialLang(pathname) && targetLang == Other(currentLang)
      ensures this.href == href && history == [] && navigation == None && !fading
      ensures Parts() == parts && button == None && this.hasContent == hasContent
      ensures loadedToc == if parts.tocSrc.Some? then parts.tocSrc.value else ""
    {
      currentLang := InitialLang(pathname);
      targetLang := Other(InitialLang(pathname));
      this.href := href;
      history := [];
      navigation := None;
      fading := false;
      this.hasContent := hasContent;
      title := parts.title;
      main := parts.main;
      menuTitle := parts.menuTitle;
      tocSrc := parts.tocSrc;
      loadedToc := if parts.tocSrc.Some? then parts.tocSrc.value else "";
      button := None;
    }

    /** createSwitcher: without a `.right-buttons` bar nothing happens;
      * otherwise the toggle appears, labelled for the current locale. */
    method CreateSwitcher(hasButtonBar: bool)
      requires Valid()
      modifies this`button
      ensures Valid()
      ensures button == if hasButtonBar then Some(LabelFor(currentLang)) else old(button)
    {
      if !hasButtonBar {
        return;
      }
      button := Some(LabelFor(currentLang));
    }

    /** swapContent: the four in-place updates, and nothing else. The frame's
      * new src is the target directory followed by its current src. */
    method SwapContent(page: Page)
      modifies this`title, this`main, this`menuTitle, this`tocSrc
      ensures Parts() == SpliceAsWritten(old(Parts()), page, old(TargetUrl()))
      ensures tocSrc == if old(tocSrc).Some? then Some(DirPrefix(old(TargetUrl())) + old(tocSrc).value) else None
    {
      ghost var spliced := SpliceAsWritten(Parts(), page, TargetUrl());
      if page.main.Some? && main.Some? {
        main := page.main;
      }
      assert main == spliced.main;
      if page.title.Some? {
        title := page.title.value;
      }
      assert title == spliced.title;
      if page.menuTitle.Some? && menuTitle.Some? {
        menuTitle := page.menuTitle;
      }
      assert menuTitle == spliced.menuTitle;
      if tocSrc.Some? {
        tocSrc := Some(DirPrefix(TargetUrl()) + tocSrc.value);
      }
    }

    /** updateSwitcherState: the locales swap and the button is relabelled as
      * createSwitcher would label it for the new current locale. */
    method UpdateSwitcherState()
      requires Valid()
      modifies this`currentLang, this`targetLang, this`button
      ensures Valid()
      ensures currentLang == old(targetLang) && targetLang == old(currentLang)
      ensures button == if old(button).Some? then Some(LabelFor(currentLang)) else None
    {
      var tmp := currentLang;
      currentLang := targetLang;
      targetLang := tmp;
      if button.Some? {
        button := Some(LabelFor(currentLang));
      }
    }

    /** Two flips restore the locales and the button. */
    method FlipTwice()
      requires Valid()
      modifies this`currentLang, this`targetLang, this`button
      ensures Valid()
      ensures currentLang == old(currentLang) && targetLang == old(targetLang) && button == old(button)
    {
      UpdateSwitcherState();
      UpdateSwitcherState();
    }

    /** The click, up to the timer (lang-switch.js:64-69): the target URL and
      * the hash are captured; without `#mdbook-content` the handler throws
      * and nothing else happens, otherwise the content fades out. */
    method StartSwitch() returns (started: bool, targetUrl: string, hash: string)
      requires Valid()
      modifies this`fading
      ensures Valid()
      ensures targetUrl == TargetUrl() && hash == Hash(href)
      ensures started == hasContent
      ensures fading == (old(fading) || hasContent)
    {
      targetUrl := TargetUrl();
      hash := Hash(href);
      started := hasContent;
      if started {
        fading := true;
      }
    }

    /** The fetch settles (lang-switch.js:72-86). An ok response commits: splice,
      * push `targetUrl + hash`, flip, fade back in. A non-ok status or a
      * rejection navigates to `targetUrl + hash` and changes nothing else. */
    method CompleteSwitch(targetUrl: string, hash: string, outcome: FetchOutcome)
      requires Valid()
      requires targetUrl == TargetUrl() && hash == Hash(href)
      modifies this
      ensures Valid()
      ensures outcome.Fetched? && IsOk(outcome.status) ==>
        && Parts() == SpliceAsWritten(old(Parts()), outcome.page, targetUrl)
        && href == targetUrl + hash
        && history == old(history) + [targetUrl + hash]
        && BeforeHash(href) == targetUrl && Hash(href) == old(Hash(href))
        && currentLang == old(targetLang) && targetLang == old(currentLang)
        && button == (if old(button).Some? then Some(LabelFor(currentLang)) else None)
        && !fading && navigation == old(navigation)
      ensures !(outcome.Fetched? && IsOk(outcome.status)) ==>
        && navigation == Some(targetUrl + hash)
        && BeforeHash(navigation.value) == targetUrl && Hash(navigation.value) == Hash(href)
        && Parts() == old(Parts()) && href == old(href) && history == old(history)
        && currentLang == old(currentLang) && targetLang == old(targetLang)
        && button == old(button) && fading == old(fading)
    {
      if outcome.Fetched? && IsOk(outcome.status) {
        Commit(targetUrl, hash, outcome.page);
      } else {
        FallBack(targetUrl, hash);
      }
    }

    /** The `.then` branch (lang-switch.js:77-82): splice, push `targetUrl +
      * hash`, flip, fade back in. */
    method Commit(targetUrl: string, hash: string, page: Page)
      requires Valid()
      requires targetUrl == TargetUrl() && hash == Hash(href)
      modifies this`title, this`main, this`menuTitle, this`tocSrc, this`history, this`href
      modifies this`currentLang, this`targetLang, this`button, this`fading
      ensures Valid()
      ensures Parts() == SpliceAsWritten(old(Parts()), page, targetUrl)
      ensures href == targetUrl + hash && history == old(history) + [targetUrl + hash]
      ensures BeforeHash(href) == targetUrl && Hash(href) == old(Hash(href))
      ensures currentLang == old(targetLang) && targetLang == old(currentLang)
      ensures button == (if old(button).Some? then Some(LabelFor(currentLang)) else None)
      ensures !fading && navigation == old(navigation)
    {
      HashCarriedOver(targetUrl, href);
      SwapAndPush(targetUrl, hash, page);
      ghost var spliced := Parts();
      UpdateSwitcherState();
      fading := false;
      assert Parts() == spliced;
    }

    /** Lines 78-79: swapContent, then `history.pushState` of `targetUrl +
      * hash`; the TOC frame gains the new target's directory. */
    method SwapAndPush(targetUrl: string, hash: string, page: Page)
      requires Valid()
      requires targetUrl == TargetUrl() && hash == Hash(href)
      modifies this`title, this`main, this`menuTitle, this`tocSrc, this`history, this`href
      ensures Valid()
      ensures Parts() == SpliceAsWritten(old(Parts()), page, targetUrl)
      ensures href == targetUrl + hash && history == old(history) + [targetUrl + hash]
    {
      var url := targetUrl + hash;
      PushExtendsToc(history, href, currentLang, targetLang, loadedToc);
      SwapContent(page);
      Push(url);
    }

    /** `history.pushState(null, "", url)`: the address shown becomes `url`,
      * which the frame's src already accounts for. */
    method Push(url: string)
      requires targetLang == Other(currentLang)
      requires button.Some? ==> button.value == LabelFor(currentLang)
      requires tocSrc.Some? ==> tocSrc.value == NestedToc(history + [url], loadedToc)
      modifies this`history, this`href
      ensures Valid()
      ensures history == old(history) + [url] && href == url
      ensures Parts() == old(Parts())
    {
      history := history + [url];
      href := url;
    }

    /** The `.catch` branch (lang-switch.js:83-86): a full navigation to
      * `targetUrl + hash`, and nothing else. */
    method FallBack(targetUrl: string, hash: string)
      requires Valid()
      requires targetUrl == TargetUrl() && hash == Hash(href)
      modifies this`navigation
      ensures Valid()
      ensures navigation == Some(targetUrl + hash)
      ensures BeforeHash(navigation.value) == targetUrl && Hash(navigation.value) == Hash(href)
    {
      HashCarriedOver(targetUrl, href);
      navigation := Some(targetUrl + hash);
    }

    /** doSwitch, from the click to the settled fetch. */
    method DoSwitch(outcome: FetchOutcome)
      requires Valid()
      modifies this
      ensures Valid()
      ensures !hasContent ==>
        && Parts() == old(Parts()) && href == old(href) && history == old(history)
        && navigation == old(navigation) && fading == old(fading)
        && currentLang == old(currentLang) && targetLang == old(targetLang) && button == old(button)
      ensures hasContent && outcome.Fetched? && IsOk(outcome.status) ==>
        && Parts() == SpliceAsWritten(old(Parts()), outcome.page, old(TargetUrl()))
        && href == old(TargetUrl()) + old(Hash(href))
        && history == old(history) + [href]
        && currentLang == old(targetLang) && targetLang == old(currentLang)
        && button == (if old(button).Some? then Some(LabelFor(currentLang)) else None)
        && !fading && navigation == old(navigation)
      ensures hasContent && !(outcome.Fetched? && IsOk(outcome.status)) ==>
        && navigation == Some(old(TargetUrl()) + old(Hash(href)))
        && Parts() == old(Parts()) && href == old(href) && history == old(history)
        && currentLang == old(currentLang) && targetLang == old(targetLang)
        && button == old(button) && fading
    {
      var started, targetUrl, hash := StartSwitch();
      if started {
        CompleteSwitch(targetUrl, hash, outcome);
      }
    }
  }

  /** Two committed switches from a freshly loaded page: the TOC frame ends
    * with both targets' directories in front of its load-time src, and so no
    * longer names the TOC beside the page shown. */
  method TwoSwitchesNestToc(s: Switcher, p1: Page, p2: Page)
    requires s.Valid() && s.hasContent && s.history == [] && s.tocSrc.Some?
    modifies s
    ensures |s.history| == 2 && s.href == s.history[1]
    ensures s.tocSrc == Some(DirPrefix(BeforeHash(s.history[1])) + DirPrefix(BeforeHash(s.history[0]))
                             + old(s.tocSrc.value))
    ensures DirPrefix(BeforeHash(s.history[0])) != [] ==>
      s.tocSrc != Some(TocUrl(BeforeHash(s.href), old(s.tocSrc.value)))
  {
    s.DoSwitch(Fetched(200, p1));
    ghost var u1 := s.href;
    assert s.history == [u1];
    s.DoSwitch(Fetched(200, p2));
    ghost var u2 := s.href;
    assert s.history == [u1, u2];
    NestedTocTwo(u1, u2, s.loadedToc);
    if DirPrefix(BeforeHash(u1)) != [] {
      SecondSwitchTocNests(u1, u2, s.loadedToc);
    }
  }

  /** The page of the walk-through below starts in English. */
  lemma ScenarioLocale(path: string)
    requires path == "/en/ch1.html"
    ensures InitialLang(path) == En
  {
    NoOccurrenceBefore(path, "/zh/", 9, 1);
  }

  /** Its hash. */
  lemma ScenarioHash(h: string)
    requires h == "https://site/en/ch1.html#overview"
    ensures BeforeHash(h) == "https://site/en/ch1.html"
    ensures Hash(h) == "#overview"
  {
    assert h[..24] == "https://site/en/ch1.html" && h[24..] == "#overview";
    BeforeHashAt(h, 24);
  }

  /** Its target. */
  lemma ScenarioTarget(h: string)
    requires h == "https://site/en/ch1.html#overview"
    ensures TargetHref(h, En, Zh) == "https://site/zh/ch1.html"
  {
    ScenarioHash(h);
    var base := BeforeHash(h);
    assert Segment(Zh) == "/zh/" && Segment(En) == "/en/";
    ScenarioSegmentAt(base);
    var t := "https://site/zh/ch1.html";
    ScenarioPieces(base, t);
    EqualByParts(TargetHref(h, En, Zh), t, 12, 4);
  }

  /** The source and target URLs differ only in the locale segment at 12. */
  lemma ScenarioPieces(base: string, t: string)
    requires base == "https://site/en/ch1.html" && t == "https://site/zh/ch1.html"
    ensures base[..12] == t[..12] && base[16..] == t[16..] && t[12..16] == "/zh/"
  {
    assert base[..12] == "https://site" == t[..12];
    assert base[16..] == "ch1.html" == t[16..];
  }

  /** Where its locale segment sits. */
  lemma ScenarioSegmentAt(base: string)
    requires base == "https://site/en/ch1.html"
    ensures IndexOf(base, "/en/") == 12
  {
    NoOccurrenceBefore(base, "/en/", 12, 2);
    assert base[12..16] == "/en/";
    IndexOfAt(base, "/en/", 12);
  }

  /** The walk-through of a switch from https://site/en/ch1.html#overview with
    * a fetch that succeeds: address, locale and button follow the new page. */
  method SwitchScenarioCommits(page: Page)
  {
    var h := "https://site/en/ch1.html#overview";
    ScenarioLocale("/en/ch1.html");
    ScenarioTarget(h);
    ScenarioHash(h);
    var s := new Switcher(h, "/en/ch1.html", Content("Ch1", Some([]), Some("Book"), None), true);
    s.CreateSwitcher(true);
    s.DoSwitch(Fetched(200, page));
    assert s.href == "https://site/zh/ch1.html" + "#overview";
    assert s.currentLang == Zh && s.button == Some(LabelFor(Zh));
  }

  /** The same switch with a rejected fetch: a navigation to the target with
    * the hash, and no splice and no flip. */
  method SwitchScenarioFallsBack()
  {
    var h := "https://site/en/ch1.html#overview";
    ScenarioLocale("/en/ch1.html");
    ScenarioTarget(h);
    ScenarioHash(h);
    var live := Content("Ch1", Some([]), Some("Book"), None);
    var t := new Switcher(h, "/en/ch1.html", live, true);
    t.DoSwitch(Rejected);
    assert t.navigation == Some("https://site/zh/ch1.html" + "#overview");
    assert t.currentLang == En && t.Parts() == live;
  }
}
