/** Facts that tie the two scripts together: they read the locale from the
  * same path differently, and a switch keeps the page key the annotator
  * looks up. */
module Agreement {
  import opened Text
  import opened LangSwitch
  import opened LastUpdated

  /** The two scripts agree on the locale of a path exactly when the path lies
    * in one of the locale trees. */
  lemma LocalesAgreeExactlyInsideTrees(pathname: string)
    ensures (IsChinesePage(pathname) <==> InitialLang(pathname) == Zh)
        <==> (Occurs(pathname, "/zh/") || Occurs(pathname, "/en/"))
  {
    assert Segment(Zh) == "/zh/";
  }

  /** Outside both trees (a standalone preview, say) the switcher starts in
    * English while the annotator treats the page as Chinese. */
  lemma LocalesDisagreeOutsideTrees(pathname: string)
    requires !Occurs(pathname, "/zh/") && !Occurs(pathname, "/en/")
    ensures InitialLang(pathname) == En && IsChinesePage(pathname)
  {
    assert Segment(Zh) == "/zh/";
  }

  /** Substituting one locale segment for another keeps the last path
    * segment, so the page key does not change across a switch. */
  lemma SwitchKeepsPageKey(pathname: string, cur: Lang, tgt: Lang)
    ensures PageKey(ReplaceFirst(pathname, Segment(cur), Segment(tgt))) == PageKey(pathname)
  {
    ReplaceKeepsLastSegment(pathname, Segment(cur), Segment(tgt));
  }

  /** The same for the switcher's target address: the text after its last `/`
    * is that of the pre-hash href. */
  lemma TargetKeepsLastSegment(href: string, cur: Lang, tgt: Lang)
    ensures LastSegment(TargetHref(href, cur, tgt)) == LastSegment(Url.BeforeHash(href))
  {
    ReplaceKeepsLastSegment(Url.BeforeHash(href), Segment(cur), Segment(tgt));
  }

  /** After a switch from English to Chinese the path the annotator reads
    * next is a Chinese one. */
  lemma SwitchToChineseIsChinesePage(pathname: string)
    requires Occurs(pathname, "/en/")
    ensures IsChinesePage(ReplaceFirst(pathname, Segment(En), Segment(Zh)))
  {
    assert Segment(En) == "/en/" && Segment(Zh) == "/zh/";
    var i := IndexOf(pathname, "/en/");
    assert OccursAt(ReplaceFirst(pathname, "/en/", "/zh/"), "/zh/", i);
  }
}
