/**
  The lines `App::get_text` (src/app.rs) hands to the terminal: per non-empty paragraph one line
  of styled spans and one blank line.  A text run is one span (italic when emphasized); a link is
  its label span followed by the span `[code]`, both in the link style, highlighted when the
  selector decodes to that link's number.
*/
module Render {
  import opened Wrappers
  import opened Parser
  import Base26
  import Links

  /** Plain and italic text; a link in blue underlined, or selected (white on blue). */
  datatype Style = Plain | Italic | LinkNormal | LinkSelected

  datatype Span = Span(content: string, style: Style)

  type Line = seq<Span>

  /** `!selector.is_empty() && link_counter == base26_to_usize(selector)`. */
  predicate IsHighlighted(k: nat, selector: string) {
    selector != [] && Base26.Decode(selector) == Some(k)
  }

  function LinkStyle(k: nat, selector: string): Style {
    if IsHighlighted(k, selector) then LinkSelected else LinkNormal
  }

  /** `format_link_ref`: one span `[code]` in the given style. */
  function FormatLinkRef(k: nat, style: Style): (r: seq<Span>)
    ensures |r| == 1 && r[0].style == style
    ensures |r[0].content| >= 3 && r[0].content[0] == '[' && r[0].content[|r[0].content| - 1] == ']'
  {
    [Span("[" + Base26.Encode(k) + "]", style)]
  }

  /** The spans of one element when it is link number `k` of the page (or would be, for a text run). */
  function ElementSpans(e: ParagraphElement, k: nat, selector: string): seq<Span> {
    match e
    case Text(t, emphasized) => [Span(t, if emphasized then Italic else Plain)]
    case LinkElement(l) => [Span(l.text, LinkStyle(k, selector))] + FormatLinkRef(k, LinkStyle(k, selector))
  }

  /** A way of drawing one element, given the number its link would have. */
  type Draw = (ParagraphElement, nat) -> seq<Span>

  /** The spans of a run of elements drawn one after the other, the link counter running on from `start`. */
  function DrawRun(es: seq<ParagraphElement>, start: nat, draw: Draw): seq<Span>
    decreases |es|
  {
    if |es| == 0 then [] else draw(es[0], start) + DrawRun(es[1..], start + Links.LinksIn(es[0]), draw)
  }

  /** How `get_text` draws an element for this selector. */
  function Drawer(selector: string): Draw {
    (e: ParagraphElement, k: nat) => ElementSpans(e, k, selector)
  }

  /** The spans of a paragraph whose first link is link number `start` of the page. */
  function ParagraphSpans(es: seq<ParagraphElement>, start: nat, selector: string): seq<Span> {
    DrawRun(es, start, Drawer(selector))
  }

  /** A paragraph's content line and the blank line after it, or nothing for a paragraph without spans. */
  function ParagraphLines(p: Paragraph, start: nat, selector: string): seq<Line> {
    var spans := ParagraphSpans(p.elems, start, selector);
    if spans == [] then [] else [spans, []]
  }

  /** What `get_text` returns for these paragraphs and this selector. */
  function PageLines(ps: seq<Paragraph>, selector: string): seq<Line> {
    if ps == [] then []
    else
      var front := ps[..|ps| - 1];
      PageLines(front, selector) + ParagraphLines(ps[|ps| - 1], |Links.PageLinks(front)|, selector)
  }

  /** All spans of a list of lines, in reading order. */
  function Flatten(lines: seq<Line>): seq<Span> {
    if lines == [] then [] else Flatten(lines[..|lines| - 1]) + lines[|lines| - 1]
  }

  function NonEmptyParagraphs(ps: seq<Paragraph>): nat {
    if ps == [] then 0 else NonEmptyParagraphs(ps[..|ps| - 1]) + (if ps[|ps| - 1].elems != [] then 1 else 0)
  }

  /** At position p of the spans stands the label `text` of link number k, followed by the span `[code of k]`. */
  predicate LabelledAt(spans: seq<Span>, p: int, text: string, k: nat, selector: string) {
    0 <= p < |spans| - 1 &&
    spans[p] == Span(text, LinkStyle(k, selector)) &&
    spans[p + 1] == Span("[" + Base26.Encode(k) + "]", LinkStyle(k, selector))
  }

  // ----- Lemmas -----

  /** The spans of the elements from `j` on: those of element `j`, then those of the rest, numbered on. */
  lemma DrawRunStep(es: seq<ParagraphElement>, j: nat, c: nat, draw: Draw)
    requires j < |es|
    ensures DrawRun(es[j..], c, draw) == draw(es[j], c) + DrawRun(es[j + 1..], c + Links.LinksIn(es[j]), draw)
  {
    var rest := es[j..];
    assert |rest| != 0 && rest[0] == es[j] && rest[1..] == es[j + 1..];
  }

  /** A run of two runs: the spans of the first, then those of the second, numbered after the first's links. */
  lemma {:induction false} DrawRunAppend(a: seq<ParagraphElement>, b: seq<ParagraphElement>, start: nat, draw: Draw)
    ensures DrawRun(a + b, start, draw) == DrawRun(a, start, draw) + DrawRun(b, start + CountLinks(a), draw)
    decreases |a|
  {
    if |a| == 0 {
      assert a + b == b;
    } else {
      var c := start + Links.LinksIn(a[0]);
      ConsSplit(a, b);
      DrawRunAppend(a[1..], b, c, draw);
      ConcatAssoc(draw(a[0], start), DrawRun(a[1..], c, draw), DrawRun(b, c + CountLinks(a[1..]), draw));
    }
  }

  lemma ConcatAssoc(x: seq<Span>, y: seq<Span>, z: seq<Span>)
    ensures x + (y + z) == (x + y) + z
  {
  }

  /** The spans of a run around element `i`: those before it, its own, then those after it, numbered on. */
  lemma DrawRunSplit(es: seq<ParagraphElement>, i: nat, start: nat, draw: Draw)
    requires i < |es|
    ensures var c := start + CountLinks(es[..i]);
      DrawRun(es, start, draw) ==
        DrawRun(es[..i], start, draw) + (draw(es[i], c) + DrawRun(es[i + 1..], c + Links.LinksIn(es[i]), draw))
  {
    assert es == es[..i] + es[i..];
    DrawRunAppend(es[..i], es[i..], start, draw);
    DrawRunStep(es, i, start + CountLinks(es[..i]), draw);
  }

  /** The spans of a paragraph from element `j` on: those of element `j`, then those of the rest, numbered on. */
  lemma ParagraphSpansStep(es: seq<ParagraphElement>, j: nat, c: nat, selector: string)
    requires j < |es|
    ensures ParagraphSpans(es[j..], c, selector) ==
      ElementSpans(es[j], c, selector) + ParagraphSpans(es[j + 1..], c + Links.LinksIn(es[j]), selector)
  {
    DrawRunStep(es, j, c, Drawer(selector));
  }

  /** Moving the spans of element `j` from the rest of a paragraph onto the spans already built. */
  lemma ParagraphSpansAdvance(es: seq<ParagraphElement>, j: nat, c: nat, selector: string, prefix: seq<Span>)
    requires j < |es|
    ensures prefix + ParagraphSpans(es[j..], c, selector) ==
      (prefix + ElementSpans(es[j], c, selector)) + ParagraphSpans(es[j + 1..], c + Links.LinksIn(es[j]), selector)
  {
    ParagraphSpansStep(es, j, c, selector);
    var rest := ParagraphSpans(es[j + 1..], c + Links.LinksIn(es[j]), selector);
    assert prefix + (ElementSpans(es[j], c, selector) + rest) == (prefix + ElementSpans(es[j], c, selector)) + rest;
  }

  /** One more paragraph: its lines join the end, numbered after the links before it. */
  lemma PageLinesStep(ps: seq<Paragraph>, i: nat, selector: string)
    requires i < |ps|
    ensures PageLines(ps[..i + 1], selector) ==
      PageLines(ps[..i], selector) + ParagraphLines(ps[i], |Links.PageLinks(ps[..i])|, selector)
  {
    assert ps[..i + 1][..i] == ps[..i];
  }

  /** A paragraph draws at least one span per element, so it draws nothing exactly when it is empty. */
  lemma {:induction false} ParagraphSpansEmpty(es: seq<ParagraphElement>, start: nat, selector: string)
    ensures ParagraphSpans(es, start, selector) == [] <==> es == []
    ensures |ParagraphSpans(es, start, selector)| >= |es|
    decreases |es|
  {
    if es != [] {
      var c := start + Links.LinksIn(es[0]);
      ParagraphSpansEmpty(es[1..], c, selector);
      assert ParagraphSpans(es, start, selector) == ElementSpans(es[0], start, selector) + ParagraphSpans(es[1..], c, selector);
    }
  }

  /** Lines alternate: even lines carry spans, odd lines are blank. */
  predicate Alternating(lines: seq<Line>) {
    forall i :: 0 <= i < |lines| ==> (lines[i] == [] <==> i % 2 == 1)
  }

  /**
    Two lines per paragraph that has elements and none for an empty one: even lines carry the
    spans of a paragraph, odd lines are blank.
  */
  lemma {:induction false} PageLinesShape(ps: seq<Paragraph>, selector: string)
    ensures |PageLines(ps, selector)| == 2 * NonEmptyParagraphs(ps)
    ensures Alternating(PageLines(ps, selector))
    decreases |ps|
  {
    if ps != [] {
      var front, last := ps[..|ps| - 1], ps[|ps| - 1];
      var c := |Links.PageLinks(front)|;
      PageLinesShape(front, selector);
      ParagraphSpansEmpty(last.elems, c, selector);
      var a, b := PageLines(front, selector), ParagraphLines(last, c, selector);
      assert PageLines(ps, selector) == a + b;
      AlternatingAppend(a, b, NonEmptyParagraphs(front));
    }
  }

  /** A content line and a blank line after an even number of alternating lines keep them alternating. */
  lemma AlternatingAppend(a: seq<Line>, b: seq<Line>, n: nat)
    requires |a| == 2 * n && Alternating(a)
    requires b == [] || (|b| == 2 && b[0] != [] && b[1] == [])
    ensures Alternating(a + b)
  {
    forall i | 0 <= i < |a + b| ensures (a + b)[i] == [] <==> i % 2 == 1 {
      if i < |a| {
        assert (a + b)[i] == a[i];
      } else if i == |a| {
        assert (a + b)[i] == b[0];
      } else {
        assert (a + b)[i] == b[1];
        assert i == 2 * n + 1;
      }
    }
  }

  lemma {:induction false} FlattenAppend(a: seq<Line>, b: seq<Line>)
    ensures Flatten(a + b) == Flatten(a) + Flatten(b)
    decreases |b|
  {
    if b == [] {
      assert a + b == a;
    } else {
      var n, ab := |b| - 1, a + b;
      assert ab[..|ab| - 1] == a + b[..n] && ab[|ab| - 1] == b[n];
      FlattenAppend(a, b[..n]);
      ConcatAssoc(Flatten(a), Flatten(b[..n]), b[n]);
    }
  }

  /** The j-th link of a paragraph is drawn as its label followed by `[code]` of link number `start + j`. */
  lemma ParagraphLinkLabelled(es: seq<ParagraphElement>, start: nat, selector: string, j: nat, k: nat)
    requires j < |Links.ElemLinks(es)| && k == start + j
    ensures exists p :: LabelledAt(ParagraphSpans(es, start, selector), p, Links.ElemLinks(es)[j].text, k, selector)
  {
    var i := Links.LinkElementIndex(es, j);
    Links.LinkElementIndexFinds(es, j);
    var e := es[i];
    ParagraphSpansSplit(es, i, start, selector);
    var before := ParagraphSpans(es[..i], start, selector);
    var head := ElementSpans(e, k, selector);
    var after := ParagraphSpans(es[i + 1..], k + 1, selector);
    HeadLabelled(e, k, selector);
    LabelledBefore(head, after, 0, e.link.text, k, selector);
    LabelledAfter(before, head + after, 0, e.link.text, k, selector);
    assert LabelledAt(ParagraphSpans(es, start, selector), |before|, Links.ElemLinks(es)[j].text, k, selector);
  }

  /** The spans of a paragraph around element `i`: those before it, its own, then those after it, numbered on. */
  lemma ParagraphSpansSplit(es: seq<ParagraphElement>, i: nat, start: nat, selector: string)
    requires i < |es|
    ensures var c := start + CountLinks(es[..i]);
      ParagraphSpans(es, start, selector) ==
        ParagraphSpans(es[..i], start, selector) + (ElementSpans(es[i], c, selector) + ParagraphSpans(es[i + 1..], c + Links.LinksIn(es[i]), selector))
  {
    DrawRunSplit(es, i, start, Drawer(selector));
    var c := start + CountLinks(es[..i]);
    assert Drawer(selector)(es[i], c) == ElementSpans(es[i], c, selector);
  }

  /** A link element is drawn as its label followed by its reference. */
  lemma HeadLabelled(e: ParagraphElement, k: nat, selector: string)
    requires e.LinkElement?
    ensures LabelledAt(ElementSpans(e, k, selector), 0, e.link.text, k, selector)
  {
  }

  /**
    Link number k of the page is drawn as its label followed by the span `[code of k]`, in the
    selected style exactly when the selector decodes to k.
  */
  lemma {:induction false} PageLinkLabelled(ps: seq<Paragraph>, selector: string, k: nat)
    requires k < |Links.PageLinks(ps)|
    ensures exists p :: LabelledAt(Flatten(PageLines(ps, selector)), p, Links.PageLinks(ps)[k].text, k, selector)
    decreases |ps|
  {
    var front, last := ps[..|ps| - 1], ps[|ps| - 1];
    var c := |Links.PageLinks(front)|;
    var a, b := PageLines(front, selector), ParagraphLines(last, c, selector);
    assert PageLines(ps, selector) == a + b;
    FlattenAppend(a, b);
    var all := Flatten(PageLines(ps, selector));
    assert all == Flatten(a) + Flatten(b);
    if k < c {
      PageLinkLabelled(front, selector, k);
      var p :| LabelledAt(Flatten(a), p, Links.PageLinks(front)[k].text, k, selector);
      assert Links.PageLinks(ps) == Links.PageLinks(front) + Links.ElemLinks(last.elems);
      assert Links.PageLinks(ps)[k] == Links.PageLinks(front)[k];
      LabelledBefore(Flatten(a), Flatten(b), p, Links.PageLinks(ps)[k].text, k, selector);
    } else {
      LastParagraphLinkLabelled(ps, selector, k);
    }
  }

  lemma LastParagraphLinkLabelled(ps: seq<Paragraph>, selector: string, k: nat)
    requires ps != [] && |Links.PageLinks(ps[..|ps| - 1])| <= k < |Links.PageLinks(ps)|
    ensures exists p :: LabelledAt(Flatten(PageLines(ps, selector)), p, Links.PageLinks(ps)[k].text, k, selector)
  {
    var front, last := ps[..|ps| - 1], ps[|ps| - 1];
    var c := |Links.PageLinks(front)|;
    var j := k - c;
    assert Links.PageLinks(ps) == Links.PageLinks(front) + Links.ElemLinks(last.elems);
    var text := Links.PageLinks(ps)[k].text;
    assert text == Links.ElemLinks(last.elems)[j].text;
    var spans := ParagraphSpans(last.elems, c, selector);
    ParagraphLinkLabelled(last.elems, c, selector, j, k);
    var q :| LabelledAt(spans, q, text, k, selector);
    var a := PageLines(front, selector);
    assert PageLines(ps, selector) == a + [spans, []];
    FlattenParagraph(a, spans);
    LabelledAfter(Flatten(a), spans, q, text, k, selector);
  }

  /** Drawing a paragraph's content line and blank line adds its spans to the end. */
  lemma FlattenParagraph(a: seq<Line>, spans: Line)
    ensures Flatten(a + [spans, []]) == Flatten(a) + spans
  {
    FlattenAppend(a, [spans, []]);
    assert [spans, []][..1] == [spans];
    assert Flatten([spans]) == Flatten([]) + spans;
  }

  /** What stands between the brackets of a link reference decodes back to the link's number. */
  lemma LinkRefDecodes(k: nat, style: Style)
    ensures var c := FormatLinkRef(k, style)[0].content; Base26.Decode(c[1..|c| - 1]) == Some(k)
  {
    var code := Base26.Encode(k);
    Base26.DecodeEncode(k);
    assert ("[" + code + "]")[1..|code| + 1] == code;
  }

  lemma LabelledAfter(x: seq<Span>, y: seq<Span>, q: int, text: string, k: nat, selector: string)
    requires LabelledAt(y, q, text, k, selector)
    ensures LabelledAt(x + y, |x| + q, text, k, selector)
  {
    assert (x + y)[|x| + q] == y[q] && (x + y)[|x| + q + 1] == y[q + 1];
  }

  lemma LabelledBefore(x: seq<Span>, y: seq<Span>, p: int, text: string, k: nat, selector: string)
    requires LabelledAt(x, p, text, k, selector)
    ensures LabelledAt(x + y, p, text, k, selector)
  {
    assert (x + y)[p] == x[p] && (x + y)[p + 1] == x[p + 1];
  }
}
