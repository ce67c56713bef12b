/**
  How the link table built by `set_html` (src/app.rs) and the highlighting done by `get_text`
  agree: while the table is the one built for the paragraphs on screen, the buffer names a link
  in the table exactly when some drawn link is highlighted, that link is the one Enter follows,
  and it is drawn with its label `[buffer]` in the selected style.
*/
module Selection {
  import opened Wrappers
  import opened Parser
  import Base26
  import Links
  import Render
  import V = Viewport
  import H = Handler
  import Events

  /** The table is the one `set_html` builds for the paragraphs on screen. */
  predicate TableMatchesPage(v: V.View) {
    v.links == V.LinkTable(v.paragraphs)
  }

  /** Link k is highlighted exactly when the buffer is a key of the table that decodes to k; it is then the one Enter follows. */
  lemma HighlightedIsSelected(v: V.View, k: nat)
    requires TableMatchesPage(v) && k < |Links.PageLinks(v.paragraphs)|
    ensures Render.IsHighlighted(k, v.selector) <==> v.selector in v.links && Base26.Decode(v.selector) == Some(k)
    ensures Render.IsHighlighted(k, v.selector) ==> V.AfterGoToSelectedLink(v).1 == Some(Links.PageLinks(v.paragraphs)[k].link)
  {
    Links.LookupAt(Links.PageLinks(v.paragraphs), v.selector);
  }

  /** The buffer names a link of the table exactly when some link on the page is drawn highlighted. */
  lemma SelectedIffSomeHighlighted(v: V.View)
    requires TableMatchesPage(v)
    ensures v.selector in v.links <==> exists k :: 0 <= k < |Links.PageLinks(v.paragraphs)| && Render.IsHighlighted(k, v.selector)
  {
    var ls := Links.PageLinks(v.paragraphs);
    Links.LookupAt(ls, v.selector);
    if v.selector in v.links {
      var k := Base26.Decode(v.selector).value;
      HighlightedIsSelected(v, k);
    }
  }

  /** The link the buffer selects is drawn, label then `[buffer]`, in the selected style. */
  lemma SelectedLinkDrawnHighlighted(v: V.View)
    requires TableMatchesPage(v) && v.selector in v.links
    ensures Base26.Decode(v.selector).Some?
    ensures var k := Base26.Decode(v.selector).value;
      Render.LinkStyle(k, v.selector) == Render.LinkSelected &&
      Base26.Encode(k) == v.selector &&
      exists p :: Render.LabelledAt(Render.Flatten(Render.PageLines(v.paragraphs, v.selector)), p, v.links[v.selector].text, k, v.selector)
  {
    var ls := Links.PageLinks(v.paragraphs);
    Links.LookupAt(ls, v.selector);
    var k := Base26.Decode(v.selector).value;
    HighlightedIsSelected(v, k);
    Base26.EncodeDecode(v.selector);
    Render.PageLinkLabelled(v.paragraphs, v.selector, k);
  }

  /** A new page installs the table for its own paragraphs. */
  lemma SetPageMatchesTable(v: V.View, page: Page)
    ensures TableMatchesPage(V.AfterSetPage(v, page))
  {
  }

  /** Key events never change the table or the paragraphs, so the table keeps matching the page. */
  lemma KeyStepKeepsMatch(v: V.View, ev: Events.KeyEvent)
    requires H.KeyHandled(v, ev) && TableMatchesPage(v)
    ensures TableMatchesPage(H.KeyStep(v, ev).0)
  {
    var q := H.AfterQuitMatch(v, ev);
    var w := H.KeyStep(v, ev).0;
    assert q.links == v.links && q.paragraphs == v.paragraphs;
    assert w.links == q.links && w.paragraphs == q.paragraphs;
  }
}
