/**
  `App` of src/app.rs as a class whose fields its methods update in place, and the event handlers
  of src/handler.rs as methods on it.  `Snapshot()` is the state as a `Viewport.View`; every
  method that changes the state promises the new snapshot in terms of the old one, through the
  functions of `Viewport` and `Handler` on which the properties are proved.
*/
module AppModel {
  import opened Wrappers
  import opened Parser
  import opened Events
  import Dom
  import Base26
  import Links
  import Render
  import V = Viewport
  import H = Handler

  class App {
    var running: bool
    var paragraphs: seq<Paragraph>
    var pageTitle: string
    var links: map<string, Link>
    var verticalScroll: V.usize
    var frameWidth: V.u16
    var frameHeight: V.u16
    var pageContentLength: V.usize
    var selector: string

    function Snapshot(): V.View
      reads this
    {
      V.View(running, paragraphs, pageTitle, links, verticalScroll, frameWidth, frameHeight, pageContentLength, selector)
    }

    /** `App::new()`: running, no page, no links, at the top, an empty buffer. */
    constructor ()
      ensures Snapshot() == V.Initial
    {
      running := true;
      paragraphs := [];
      pageTitle := "";
      verticalScroll := 0;
      frameWidth, frameHeight := 0, 0;
      pageContentLength := 0;
      selector := "";
      links := map[];
    }

    method Quit()
      modifies this
      ensures Snapshot() == old(Snapshot()).(running := false)
    {
      running := false;
    }

    method Resize(width: V.u16, height: V.u16)
      modifies this
      ensures Snapshot() == old(Snapshot()).(frameWidth := width, frameHeight := height)
    {
      frameWidth := width;
      frameHeight := height;
    }

    method LinkSelect(c: char)
      modifies this
      ensures Snapshot() == V.AfterLinkSelect(old(Snapshot()), c)
    {
      if LinkSelectorExists() || selector == [] {
        selector := selector + [c];
      }
    }

    method DeleteLinkSelector()
      modifies this
      ensures Snapshot() == V.AfterDeleteLinkSelector(old(Snapshot()))
    {
      if selector != [] {
        selector := selector[..|selector| - 1];
      }
    }

    /** `go_to_selected_link` up to the fetch: returns the article to fetch, after emptying the buffer. */
    method GoToSelectedLink() returns (target: Option<string>)
      modifies this
      ensures (Snapshot(), target) == V.AfterGoToSelectedLink(old(Snapshot()))
    {
      target := None;
      if selector in links {
        var link := links[selector];
        selector := "";
        target := Some(link.link);
      }
    }

    function LinkSelectorExists(): (b: bool)
      reads this
      ensures b <==> selector in links
    {
      selector in links
    }

    method Scroll(key: KeyCode)
      requires V.CanScroll(Snapshot(), key)
      modifies this
      ensures Snapshot() == V.AfterScroll(old(Snapshot()), key)
    {
      var amount: nat, direction: V.Direction := 0, V.Up;
      match key {
        case Home => amount, direction := V.USIZE_MAX, V.Up;
        case End => amount, direction := V.USIZE_MAX, V.Down;
        case Up => amount, direction := 1, V.Up;
        case Down => amount, direction := 1, V.Down;
        case PageUp => amount, direction := frameHeight - V.PageChrome, V.Up;
        case PageDown => amount, direction := frameHeight - V.PageChrome, V.Down;
        case _ => assert false;
      }
      if direction == V.Down {
        var moved := verticalScroll + amount;
        var bound := V.SaturatingSub(pageContentLength, V.ScrollMargin);
        verticalScroll := if moved <= bound then moved else bound;
      } else {
        verticalScroll := V.SaturatingSub(verticalScroll, amount);
      }
    }

    method SetScrollParams(length: V.usize)
      modifies this
      ensures Snapshot() == V.AfterSetScrollParams(old(Snapshot()), length)
    {
      pageContentLength := length;
    }

    /**
      `set_html`: parse the document, install its title and paragraphs, rebuild the link table in
      page order and go back to the top.  A panic of the extractor happens before any field changes.
    */
    method SetHtml(doc: seq<Dom.Node>) returns (panic: Option<ParseError>)
      modifies this
      ensures PageOf(doc).Err? ==> panic == Some(PageOf(doc).error) && Snapshot() == old(Snapshot())
      ensures PageOf(doc).Ok? ==> panic == None && Snapshot() == V.AfterSetPage(old(Snapshot()), PageOf(doc).value)
    {
      var parsed := ParsePage(doc);
      if parsed.Err? {
        return Some(parsed.error);
      }
      var page := parsed.value;
      pageTitle := page.title;
      paragraphs := page.paragraphs;
      IndexLinks();
      verticalScroll := 0;
      panic := None;
    }

    /** The loop of `set_html`: clear the table, then insert every link under the code of a running counter. */
    method IndexLinks()
      modifies this
      ensures Snapshot() == old(Snapshot()).(links := V.LinkTable(paragraphs))
    {
      var numLinks: nat := 0;
      links := map[];
      var i := 0;
      while i < |paragraphs|
        invariant 0 <= i <= |paragraphs|
        invariant Snapshot() == old(Snapshot()).(links := links)
        invariant links == Links.IndexOf(Links.PageLinks(paragraphs[..i]))
        invariant numLinks == |Links.PageLinks(paragraphs[..i])|
      {
        Links.PageLinksStep(paragraphs, i);
        numLinks := IndexParagraph(paragraphs[i].elems, numLinks, Links.PageLinks(paragraphs[..i]));
        i := i + 1;
      }
      assert paragraphs[..i] == paragraphs;
    }

    /** The inner loop of `set_html`: the links of one paragraph, numbered on from `numLinks`. */
    method IndexParagraph(es: seq<ParagraphElement>, numLinks: nat, ghost done: seq<Link>) returns (count: nat)
      requires links == Links.IndexOf(done) && numLinks == |done|
      modifies this
      ensures Snapshot() == old(Snapshot()).(links := Links.IndexOf(done + Links.ElemLinks(es)))
      ensures count == |done + Links.ElemLinks(es)|
    {
      count := numLinks;
      var j := 0;
      assert es[..j] == [] && done + [] == done;
      while j < |es|
        invariant 0 <= j <= |es|
        invariant Snapshot() == old(Snapshot()).(links := links)
        invariant links == Links.IndexOf(done + Links.ElemLinks(es[..j]))
        invariant count == |done + Links.ElemLinks(es[..j])|
      {
        Links.IndexElementStep(done, es, j);
        if es[j].LinkElement? {
          links := links[Base26.Encode(count) := es[j].link];
          count := count + 1;
        }
        j := j + 1;
      }
      assert es[..j] == es;
    }

    /** `get_text`: one line of spans and one blank line per paragraph that has elements. */
    method GetText() returns (lines: seq<Render.Line>)
      ensures lines == Render.PageLines(paragraphs, selector)
    {
      var linkCounter: nat := 0;
      lines := [];
      var i := 0;
      while i < |paragraphs|
        invariant 0 <= i <= |paragraphs|
        invariant lines == Render.PageLines(paragraphs[..i], selector)
        invariant linkCounter == |Links.PageLinks(paragraphs[..i])|
      {
        var lineVec;
        lineVec, linkCounter := ParagraphLine(paragraphs[i].elems, linkCounter);
        Render.PageLinesStep(paragraphs, i, selector);
        Links.PageLinksStep(paragraphs, i);
        if lineVec != [] {
          lines := lines + [lineVec];
          lines := lines + [[]];
        }
        i := i + 1;
      }
      assert paragraphs[..i] == paragraphs;
    }

    /** The inner loop of `get_text`: the spans of one paragraph whose first link has number `start`. */
    method ParagraphLine(es: seq<ParagraphElement>, start: nat) returns (lineVec: seq<Render.Span>, linkCounter: nat)
      ensures lineVec == Render.ParagraphSpans(es, start, selector)
      ensures linkCounter == start + |Links.ElemLinks(es)|
    {
      linkCounter := start;
      lineVec := [];
      var j := 0;
      assert es[j..] == es;
      while j < |es|
        invariant 0 <= j <= |es|
        invariant lineVec + Render.ParagraphSpans(es[j..], linkCounter, selector) == Render.ParagraphSpans(es, start, selector)
        invariant linkCounter + CountLinks(es[j..]) == start + CountLinks(es)
      {
        Render.ParagraphSpansAdvance(es, j, linkCounter, selector, lineVec);
        Links.CountLinksStep(es, j);
        var spans := ElementLine(es[j], linkCounter);
        lineVec := lineVec + spans;
        if es[j].LinkElement? {
          linkCounter := linkCounter + 1;
        }
        j := j + 1;
      }
      assert es[j..] == [];
      assert lineVec + [] == lineVec;
      Links.ElemLinksCount(es);
    }

    /** The `match` of `get_text` on one element, when the link counter stands at `k`. */
    method ElementLine(e: ParagraphElement, k: nat) returns (spans: seq<Render.Span>)
      ensures spans == Render.ElementSpans(e, k, selector)
    {
      match e {
        case Text(t, false) =>
          spans := [Render.Span(t, Render.Plain)];
        case Text(t, true) =>
          spans := [Render.Span(t, Render.Italic)];
        case LinkElement(l) =>
          var selected := selector != [] && Base26.Decode(selector) == Some(k);
          var style := if selected then Render.LinkSelected else Render.LinkNormal;
          spans := [Render.Span(l.text, style)] + Render.FormatLinkRef(k, style);
      }
    }

    /** `handle_key_events`: the quit `match`, then the dispatch `match`; returns the fetch it asks for. */
    method HandleKeyEvents(ev: KeyEvent) returns (effect: H.Effect)
      requires H.KeyHandled(Snapshot(), ev)
      modifies this
      ensures (Snapshot(), effect) == H.KeyStep(old(Snapshot()), ev)
    {
      if (ev.code == Char('c') || ev.code == Char('C')) && ev.modifiers == {Control} {
        Quit();
      }
      effect := Dispatch(ev.code);
    }

    /** The second `match` of `handle_key_events`. */
    method Dispatch(code: KeyCode) returns (effect: H.Effect)
      requires H.IsScrollArm(code) ==> V.CanScroll(Snapshot(), code)
      modifies this
      ensures (Snapshot(), effect) == H.Dispatch(old(Snapshot()), code)
    {
      effect := H.NoEffect;
      match code {
        case Down => Scroll(code);
        case Up => Scroll(code);
        case PageDown => Scroll(code);
        case PageUp => Scroll(code);
        case Char(c) =>
          if c == ' ' {
            effect := H.FetchRandomPage;
          } else if 'a' <= c <= 'z' {
            LinkSelect(c);
          }
        case Backspace => DeleteLinkSelector();
        case Enter =>
          var target := GoToSelectedLink();
          if target.Some? {
            effect := H.FetchLink(target.value);
          }
        case _ =>
      }
    }

    /** `handle_mouse_events`: the wheel scrolls a line, everything else is ignored. */
    method HandleMouseEvents(kind: MouseEventKind)
      requires H.MouseHandled(Snapshot(), kind)
      modifies this
      ensures Snapshot() == H.MouseStep(old(Snapshot()), kind)
    {
      match kind {
        case ScrollDown => Scroll(Down);
        case ScrollUp => Scroll(Up);
        case _ =>
      }
    }
  }
}
