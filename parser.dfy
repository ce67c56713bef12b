/**
  The paragraph extractor of src/parser.rs: `HtmlParser::parse_page` turns a parsed document into
  a `Page` (title and paragraphs of text runs and links), and the `Display` impls render links and
  paragraphs as Markdown-like strings.

  The extractor takes every `p` element, in document order, and classifies each DIRECT child:
  a text node becomes a text run verbatim (whitespace-only text included); a `span`, `b` or `i`
  element becomes a text run made from its first child (its text, or "" when that child is not
  a text node; nothing at all when it has no children); an `a` element becomes a link, whatever
  its attributes; anything else is dropped.  A paragraph is kept even when it ends up empty.
  The three `unwrap`s of the anchor branch panic; here they are the errors of `ParseError`.
*/
module Parser {
  import opened Wrappers
  import Dom

  datatype Link = Link(link: string, text: string)

  /** A text run carries the emphasis flag that src/app.rs matches on; the extractor never sets it. */
  datatype ParagraphElement =
    | Text(text: string, emphasized: bool)
    | LinkElement(link: Link)

  datatype Paragraph = Paragraph(elems: seq<ParagraphElement>)

  datatype Page = Page(title: string, paragraphs: seq<Paragraph>)

  /** The `unwrap` that panics on an anchor: no `href`, no first child, a first child that is not text. */
  datatype ParseError = MissingHref | MissingLinkLabel | LinkLabelNotText

  const TitleFallback: string := "-"

  predicate IsInlineStyle(name: string) {
    name == "span" || name == "b" || name == "i"
  }

  /** An anchor child on which the extractor panics. */
  predicate IsBrokenAnchor(n: Dom.Node) {
    n.Element? && n.name == "a" &&
    ("href" !in n.attrs || n.children == [] || !n.children[0].Text?)
  }

  predicate IsAnchor(n: Dom.Node) {
    n.Element? && n.name == "a"
  }

  /** What `push_text_node` pushes for the children of a `span`, `b` or `i`. */
  function StyledRun(kids: seq<Dom.Node>): seq<ParagraphElement> {
    if kids == [] then [] else [Text(if kids[0].Text? then kids[0].text else "", false)]
  }

  /** The link an `a` element with these attributes and children stands for. */
  function AnchorLink(attrs: map<string, string>, kids: seq<Dom.Node>): Result<Link, ParseError> {
    if "href" !in attrs then Err(MissingHref)
    else if kids == [] then Err(MissingLinkLabel)
    else if !kids[0].Text? then Err(LinkLabelNotText)
    else Ok(Link(attrs["href"], kids[0].text))
  }

  /** The run (zero or one element) that one direct child of a `p` contributes. */
  function ChildRun(n: Dom.Node): (r: Result<seq<ParagraphElement>, ParseError>)
    ensures r.Err? <==> IsBrokenAnchor(n)
    ensures r.Ok? ==> |r.value| <= 1 && (IsAnchor(n) <==> r.value != [] && r.value[0].LinkElement?)
    ensures n.Text? ==> r == Ok([Text(n.text, false)])
    ensures n.Other? || (n.Element? && !IsInlineStyle(n.name) && n.name != "a") ==> r == Ok([])
    ensures IsAnchor(n) && r.Ok? ==> r.value == [LinkElement(Link(n.attrs["href"], n.children[0].text))]
    ensures n.Element? && IsInlineStyle(n.name) ==>
      r == Ok(if n.children == [] then [] else [Text(if n.children[0].Text? then n.children[0].text else "", false)])
  {
    match n
    case Element(name, attrs, kids) =>
      if IsInlineStyle(name) then Ok(StyledRun(kids))
      else if name == "a" then
        (match AnchorLink(attrs, kids)
         case Ok(l) => Ok([LinkElement(l)])
         case Err(e) => Err(e))
      else Ok([])
    case Text(s) => Ok([Text(s, false)])
    case Other => Ok([])
  }

  function Prepend<T>(xs: seq<T>, r: Result<seq<T>, ParseError>): Result<seq<T>, ParseError> {
    match r
    case Ok(ys) => Ok(xs + ys)
    case Err(e) => Err(e)
  }

  lemma PrependNothing<T>(r: Result<seq<T>, ParseError>)
    ensures Prepend([], r) == r
  {
    if r.Ok? { assert [] + r.value == r.value; }
  }

  lemma PrependTwice<T>(xs: seq<T>, ys: seq<T>, r: Result<seq<T>, ParseError>)
    ensures Prepend(xs, Prepend(ys, r)) == Prepend(xs + ys, r)
  {
    if r.Ok? { assert xs + (ys + r.value) == (xs + ys) + r.value; }
  }

  /** The elements of a paragraph with these children, or the first panic met. */
  function ElementsOf(kids: seq<Dom.Node>): Result<seq<ParagraphElement>, ParseError> {
    if kids == [] then Ok([])
    else
      match ChildRun(kids[0])
      case Err(e) => Err(e)
      case Ok(run) => Prepend(run, ElementsOf(kids[1..]))
  }

  /** One paragraph per `p` element, in order. */
  function ParagraphsOf(ps: seq<Dom.Node>): Result<seq<Paragraph>, ParseError> {
    if ps == [] then Ok([])
    else
      match ElementsOf(Dom.Children(ps[0]))
      case Err(e) => Err(e)
      case Ok(es) => Prepend([Paragraph(es)], ParagraphsOf(ps[1..]))
  }

  /** The text of the first `title` element, or `TitleFallback` when there is none. */
  function TitleOf(doc: seq<Dom.Node>): (r: string)
    ensures !Dom.HasElement(doc, "title") ==> r == TitleFallback
    ensures Dom.HasElement(doc, "title") ==>
      exists t :: Dom.Within(t, doc) && t.Element? && t.name == "title" && r == Dom.TextContent(t.children)
  {
    var ts := Dom.SelectAll(doc, "title");
    Dom.SelectAllFinds(doc, "title");
    if ts == [] then TitleFallback
    else
      Dom.SelectAllWithin(doc, "title", ts[0]);
      Dom.TextContent(ts[0].children)
  }

  /** What `parse_page` returns for the document, or the panic it stops at. */
  function PageOf(doc: seq<Dom.Node>): Result<Page, ParseError> {
    match ParagraphsOf(Dom.SelectAll(doc, "p"))
    case Err(e) => Err(e)
    case Ok(ps) => Ok(Page(TitleOf(doc), ps))
  }

  /** `HtmlParser::parse_page`: one paragraph per `p`, pushed in document order; a panic stops it. */
  method ParsePage(doc: seq<Dom.Node>) returns (r: Result<Page, ParseError>)
    ensures r == PageOf(doc)
  {
    var ps := Dom.SelectAll(doc, "p");
    var paragraphs: seq<Paragraph> := [];
    var i := 0;
    assert ps[i..] == ps;
    PrependNothing(ParagraphsOf(ps));
    while i < |ps|
      invariant 0 <= i <= |ps|
      invariant Prepend(paragraphs, ParagraphsOf(ps[i..])) == ParagraphsOf(ps)
    {
      assert ps[i..][0] == ps[i] && ps[i..][1..] == ps[i + 1..];
      var elems := ParseParagraph(Dom.Children(ps[i]));
      if elems.Err? {
        return Err(elems.error);
      }
      PrependTwice(paragraphs, [Paragraph(elems.value)], ParagraphsOf(ps[i + 1..]));
      paragraphs := paragraphs + [Paragraph(elems.value)];
      i := i + 1;
    }
    assert ps[i..] == [];
    assert paragraphs + [] == paragraphs;
    r := Ok(Page(TitleOf(doc), paragraphs));
  }

  /** The inner loop of `parse_page`: classify each direct child of one `p` and push its run. */
  method ParseParagraph(kids: seq<Dom.Node>) returns (r: Result<seq<ParagraphElement>, ParseError>)
    ensures r == ElementsOf(kids)
  {
    var elems: seq<ParagraphElement> := [];
    var j := 0;
    assert kids[j..] == kids;
    PrependNothing(ElementsOf(kids));
    while j < |kids|
      invariant 0 <= j <= |kids|
      invariant Prepend(elems, ElementsOf(kids[j..])) == ElementsOf(kids)
    {
      assert kids[j..][0] == kids[j] && kids[j..][1..] == kids[j + 1..];
      var run: seq<ParagraphElement> := [];
      match kids[j] {
        case Element(name, attrs, grand) =>
          if name == "span" || name == "b" || name == "i" {
            if grand != [] {
              run := [Text(if grand[0].Text? then grand[0].text else "", false)];
            }
          } else if name == "a" {
            if "href" !in attrs {
              return Err(MissingHref);
            } else if grand == [] {
              return Err(MissingLinkLabel);
            } else if !grand[0].Text? {
              return Err(LinkLabelNotText);
            }
            run := [LinkElement(Link(attrs["href"], grand[0].text))];
          }
        case Text(s) =>
          run := [Text(s, false)];
        case Other =>
      }
      assert ChildRun(kids[j]) == Ok(run);
      PrependTwice(elems, run, ElementsOf(kids[j + 1..]));
      elems := elems + run;
      j := j + 1;
    }
    assert kids[j..] == [];
    assert elems + [] == elems;
    r := Ok(elems);
  }

  // ----- What the extractor promises -----

  /** Exactly one paragraph per `p` element, in document order, each built from that element's children. */
  lemma {:induction false} OneParagraphPerP(ps: seq<Dom.Node>, pars: seq<Paragraph>)
    requires ParagraphsOf(ps) == Ok(pars)
    ensures |pars| == |ps|
    ensures forall k :: 0 <= k < |ps| ==> ElementsOf(Dom.Children(ps[k])) == Ok(pars[k].elems)
    decreases ps
  {
    if ps != [] {
      var es := ElementsOf(Dom.Children(ps[0])).value;
      var rest := ParagraphsOf(ps[1..]).value;
      OneParagraphPerP(ps[1..], rest);
      assert pars == [Paragraph(es)] + rest;
      forall k | 0 <= k < |ps| ensures ElementsOf(Dom.Children(ps[k])) == Ok(pars[k].elems) {
        if k > 0 { assert ps[k] == ps[1..][k - 1]; }
      }
    }
  }

  /** The page holds one paragraph for every `p` of the document, even an empty one. */
  lemma PageParagraphs(doc: seq<Dom.Node>, page: Page)
    requires PageOf(doc) == Ok(page)
    ensures |page.paragraphs| == |Dom.SelectAll(doc, "p")|
    ensures forall k :: 0 <= k < |page.paragraphs| ==>
      ElementsOf(Dom.SelectAll(doc, "p")[k].children) == Ok(page.paragraphs[k].elems)
    ensures page.title == TitleOf(doc)
  {
    var ps := Dom.SelectAll(doc, "p");
    OneParagraphPerP(ps, page.paragraphs);
  }

  /** The extractor panics exactly when some direct child of the paragraph is a broken anchor, and then with that anchor's error. */
  lemma {:induction false} PanicsOnBrokenAnchor(kids: seq<Dom.Node>)
    ensures ElementsOf(kids).Err? <==> exists k :: 0 <= k < |kids| && IsBrokenAnchor(kids[k])
    ensures ElementsOf(kids).Err? ==>
      exists k :: 0 <= k < |kids| && IsBrokenAnchor(kids[k]) &&
        ChildRun(kids[k]) == Err(ElementsOf(kids).error) &&
        forall m :: 0 <= m < k ==> !IsBrokenAnchor(kids[m])
    decreases kids
  {
    if kids != [] {
      PanicsOnBrokenAnchor(kids[1..]);
      assert ChildRun(kids[0]).Err? <==> IsBrokenAnchor(kids[0]);
      if !IsBrokenAnchor(kids[0]) {
        if ElementsOf(kids).Err? {
          var k' :| 0 <= k' < |kids[1..]| && IsBrokenAnchor(kids[1..][k']) &&
            ChildRun(kids[1..][k']) == Err(ElementsOf(kids[1..]).error) &&
            forall m :: 0 <= m < k' ==> !IsBrokenAnchor(kids[1..][m]);
          assert kids[k' + 1] == kids[1..][k'];
          forall m | 0 <= m < k' + 1 ensures !IsBrokenAnchor(kids[m]) {
            if m > 0 { assert kids[m] == kids[1..][m - 1]; }
          }
        } else {
          forall k | 0 <= k < |kids| ensures !IsBrokenAnchor(kids[k]) {
            if k > 0 { assert kids[k] == kids[1..][k - 1]; }
          }
        }
      }
    }
  }

  /** The link of every sound `a` child, its `href` and its first child's text, in child order. */
  function AnchorLinks(kids: seq<Dom.Node>): seq<Link> {
    if kids == [] then []
    else
      (if IsAnchor(kids[0]) && !IsBrokenAnchor(kids[0])
       then [Link(kids[0].attrs["href"], kids[0].children[0].text)] else [])
      + AnchorLinks(kids[1..])
  }

  function CountAnchors(kids: seq<Dom.Node>): nat {
    if kids == [] then 0 else (if IsAnchor(kids[0]) then 1 else 0) + CountAnchors(kids[1..])
  }

  /** A child that yields an element: text, an anchor, or a `span`, `b` or `i` with a child. */
  predicate Contributes(n: Dom.Node) {
    n.Text? || IsAnchor(n) || (n.Element? && IsInlineStyle(n.name) && n.children != [])
  }

  function CountContributing(kids: seq<Dom.Node>): nat {
    if kids == [] then 0 else (if Contributes(kids[0]) then 1 else 0) + CountContributing(kids[1..])
  }

  function CountLinks(es: seq<ParagraphElement>): nat {
    if es == [] then 0 else (if es[0].LinkElement? then 1 else 0) + CountLinks(es[1..])
  }

  lemma {:induction false} CountLinksAppend(a: seq<ParagraphElement>, b: seq<ParagraphElement>)
    ensures CountLinks(a + b) == CountLinks(a) + CountLinks(b)
    decreases a
  {
    if a == [] {
      assert a + b == b;
    } else {
      ConsSplit(a, b);
      CountLinksAppend(a[1..], b);
    }
  }

  /**
    A paragraph that parses has at most one element per child, never an emphasized run, and
    exactly one link per `a` child: no anchor is filtered out.
  */
  lemma {:induction false} ParagraphShape(kids: seq<Dom.Node>, es: seq<ParagraphElement>)
    requires ElementsOf(kids) == Ok(es)
    ensures |es| <= |kids|
    ensures |es| == CountContributing(kids)
    ensures forall k :: 0 <= k < |es| ==> es[k].Text? ==> !es[k].emphasized
    ensures CountLinks(es) == CountAnchors(kids)
    decreases kids
  {
    if kids != [] {
      var run := ChildRun(kids[0]).value;
      var rest := ElementsOf(kids[1..]).value;
      ParagraphShape(kids[1..], rest);
      assert es == run + rest;
      CountLinksAppend(run, rest);
      forall k | 0 <= k < |es| ensures es[k].Text? ==> !es[k].emphasized {
        if k >= |run| { assert es[k] == rest[k - |run|]; }
      }
    }
  }

  /** Children are read in order: the elements of two runs of siblings are the elements of each, in turn. */
  lemma {:induction false} ElementsInChildOrder(a: seq<Dom.Node>, b: seq<Dom.Node>)
    requires ElementsOf(a).Ok? && ElementsOf(b).Ok?
    ensures ElementsOf(a + b) == Ok(ElementsOf(a).value + ElementsOf(b).value)
    decreases a
  {
    if a == [] {
      assert a + b == b;
      assert [] + ElementsOf(b).value == ElementsOf(b).value;
    } else {
      var ab := a + b;
      ConsSplit(a, b);
      ElementsOfOk(a);
      ElementsInChildOrder(a[1..], b);
      ElementsOfConsAssoc(ab, ChildRun(a[0]).value, ElementsOf(a[1..]).value, ElementsOf(b).value);
    }
  }

  /** A paragraph that parses: its first child and the rest parse too, and their elements make it up. */
  lemma ElementsOfOk(kids: seq<Dom.Node>)
    requires kids != [] && ElementsOf(kids).Ok?
    ensures ChildRun(kids[0]).Ok? && ElementsOf(kids[1..]).Ok?
    ensures ElementsOf(kids).value == ChildRun(kids[0]).value + ElementsOf(kids[1..]).value
  {
  }

  lemma ElementsOfConsAssoc(kids: seq<Dom.Node>, run: seq<ParagraphElement>, ra: seq<ParagraphElement>, rb: seq<ParagraphElement>)
    requires kids != [] && ChildRun(kids[0]) == Ok(run) && ElementsOf(kids[1..]) == Ok(ra + rb)
    ensures ElementsOf(kids) == Ok((run + ra) + rb)
  {
    ElementsOfCons(kids, run, ra + rb);
    assert run + (ra + rb) == (run + ra) + rb;
  }

  lemma ConsSplit<T>(a: seq<T>, b: seq<T>)
    requires a != []
    ensures (a + b)[0] == a[0] && (a + b)[1..] == a[1..] + b
  {
  }

  /** The first child's run, then the elements of the rest. */
  lemma ElementsOfCons(kids: seq<Dom.Node>, run: seq<ParagraphElement>, rest: seq<ParagraphElement>)
    requires kids != [] && ChildRun(kids[0]) == Ok(run) && ElementsOf(kids[1..]) == Ok(rest)
    ensures ElementsOf(kids) == Ok(run + rest)
  {
  }

  /** Text children are copied verbatim, one run each, whitespace-only ones included. */
  lemma {:induction false} TextChildrenVerbatim(kids: seq<Dom.Node>)
    requires forall k :: 0 <= k < |kids| ==> kids[k].Text?
    ensures ElementsOf(kids).Ok?
    ensures |ElementsOf(kids).value| == |kids|
    ensures forall k :: 0 <= k < |kids| ==> ElementsOf(kids).value[k] == Text(kids[k].text, false)
    decreases kids
  {
    if kids != [] {
      TextChildrenVerbatim(kids[1..]);
      var rest := ElementsOf(kids[1..]).value;
      assert ElementsOf(kids).value == [Text(kids[0].text, false)] + rest;
      forall k | 0 <= k < |kids| ensures ElementsOf(kids).value[k] == Text(kids[k].text, false) {
        if k > 0 { assert kids[k] == kids[1..][k - 1]; }
      }
    }
  }

  /**
    With no `title` element the title is the fallback "-"; otherwise it is the text of the first
    one, which may itself be "-".
  */
  lemma TitleFallbackWhenAbsent(doc: seq<Dom.Node>)
    ensures Dom.SelectAll(doc, "title") != [] <==> Dom.HasElement(doc, "title")
    ensures !Dom.HasElement(doc, "title") ==> TitleOf(doc) == TitleFallback
    ensures Dom.HasElement(doc, "title") ==>
      TitleOf(doc) == Dom.TextContent(Dom.SelectAll(doc, "title")[0].children)
  {
    Dom.SelectAllFinds(doc, "title");
  }

  /** A paragraph holding a text node, a bold run and an anchor yields those three elements in order. */
  lemma MixedParagraphExample()
    ensures ElementsOf([
      Dom.Text("A"),
      Dom.Element("b", map[], [Dom.Text("B")]),
      Dom.Element("a", map["href" := "/wiki/Target"], [Dom.Text("C")])
    ]) == Ok([Text("A", false), Text("B", false), LinkElement(Link("/wiki/Target", "C"))])
  {
    var t, bold, anchor := Dom.Text("A"), Dom.Element("b", map[], [Dom.Text("B")]),
      Dom.Element("a", map["href" := "/wiki/Target"], [Dom.Text("C")]);
    assert ChildRun(t) == Ok([Text("A", false)]);
    assert IsInlineStyle("b") && !IsInlineStyle("a");
    assert ChildRun(bold) == Ok([Text("B", false)]);
    assert ChildRun(anchor) == Ok([LinkElement(Link("/wiki/Target", "C"))]);
    SingleChild(t);
    SingleChild(bold);
    SingleChild(anchor);
    ElementsInChildOrder([bold], [anchor]);
    ElementsInChildOrder([t], [bold] + [anchor]);
    assert [t, bold, anchor] == [t] + ([bold] + [anchor]);
    assert ElementsOf([t, bold, anchor]) ==
      Ok([Text("A", false)] + ([Text("B", false)] + [LinkElement(Link("/wiki/Target", "C"))]));
    assert [Text("A", false)] + ([Text("B", false)] + [LinkElement(Link("/wiki/Target", "C"))]) ==
      [Text("A", false), Text("B", false), LinkElement(Link("/wiki/Target", "C"))];
  }

  lemma SingleChild(n: Dom.Node)
    requires ChildRun(n).Ok?
    ensures ElementsOf([n]) == ChildRun(n)
  {
    assert [n][1..] == [];
    assert ChildRun(n).value + [] == ChildRun(n).value;
  }

  /** A child that is neither text, `span`, `b`, `i` nor `a` contributes nothing, wherever it stands. */
  lemma IgnoredChildDropped(a: seq<Dom.Node>, x: Dom.Node, b: seq<Dom.Node>)
    requires x.Other? || (x.Element? && !IsInlineStyle(x.name) && x.name != "a")
    requires ElementsOf(a).Ok? && ElementsOf(b).Ok?
    ensures ElementsOf(a + [x] + b) == ElementsOf(a + b)
  {
    assert ChildRun(x) == Ok([]);
    SingleChild(x);
    ElementsInChildOrder(a, [x]);
    assert ElementsOf(a).value + [] == ElementsOf(a).value;
    ElementsInChildOrder(a + [x], b);
    ElementsInChildOrder(a, b);
  }

  // ----- Display -----

  /** `Display for Link`: `[text](link)`. */
  function LinkDisplay(l: Link): (r: string)
    ensures |r| == |l.text| + |l.link| + 4
    ensures r[0] == '[' && r[1..|l.text| + 1] == l.text && r[|l.text| + 1..|l.text| + 3] == "]("
    ensures r[|l.text| + 3..|r| - 1] == l.link && r[|r| - 1] == ')'
  {
    "[" + l.text + "](" + l.link + ")"
  }

  /** `Display for ParagraphElement`: the text of a run, whatever its emphasis, or the link. */
  function ElementDisplay(e: ParagraphElement): (r: string)
    ensures e.Text? ==> r == e.text
    ensures e.LinkElement? ==> r == LinkDisplay(e.link)
    ensures e.LinkElement? ==> |r| == |e.link.text| + |e.link.link| + 4 && r[0] == '[' && r[|r| - 1] == ')'
  {
    match e
    case Text(t, _) => t
    case LinkElement(l) => LinkDisplay(l)
  }

  /** The displays of a run of elements, one after the other; every link adds its four brackets. */
  function ElementsDisplay(es: seq<ParagraphElement>): (r: string)
    ensures |r| >= 4 * CountLinks(es)
    ensures |es| == 1 ==> r == ElementDisplay(es[0])
  {
    if es == [] then "" else ElementDisplay(es[0]) + ElementsDisplay(es[1..])
  }

  /** `Display for Paragraph`: the loop writes each element's display in turn. */
  method ParagraphDisplay(p: Paragraph) returns (s: string)
    ensures s == ElementsDisplay(p.elems)
  {
    s := "";
    var j := 0;
    while j < |p.elems|
      invariant 0 <= j <= |p.elems|
      invariant s == ElementsDisplay(p.elems[..j])
    {
      ElementsDisplayStep(p.elems, j);
      s := s + ElementDisplay(p.elems[j]);
      j := j + 1;
    }
    assert p.elems[..j] == p.elems;
  }

  lemma ElementsDisplayStep(es: seq<ParagraphElement>, j: nat)
    requires j < |es|
    ensures ElementsDisplay(es[..j + 1]) == ElementsDisplay(es[..j]) + ElementDisplay(es[j])
  {
    assert es[..j + 1] == es[..j] + [es[j]];
    ElementsDisplayAppend(es[..j], [es[j]]);
  }

  lemma {:induction false} ElementsDisplayAppend(a: seq<ParagraphElement>, b: seq<ParagraphElement>)
    ensures ElementsDisplay(a + b) == ElementsDisplay(a) + ElementsDisplay(b)
    decreases a
  {
    if a == [] {
      assert a + b == b;
    } else {
      ConsSplit(a, b);
      ElementsDisplayAppend(a[1..], b);
    }
  }

  /** The position of the first `c` in `s`. */
  function FirstIndex(s: string, c: char): (r: Option<nat>)
    ensures r.Some? ==> r.value < |s| && s[r.value] == c
  {
    if s == [] then None
    else if s[0] == c then Some(0)
    else match FirstIndex(s[1..], c)
      case None => None
      case Some(k) => Some(k + 1)
  }

  lemma {:induction false} FirstIndexAfter(a: string, c: char, b: string)
    requires c !in a
    ensures FirstIndex(a + [c] + b, c) == Some(|a|)
    decreases a
  {
    if a == [] {
      assert (a + [c] + b)[0] == c;
    } else {
      assert (a + [c] + b)[1..] == a[1..] + [c] + b;
      assert a[0] in a;
      FirstIndexAfter(a[1..], c, b);
    }
  }

  /** Reads a link back from its display: split at the first `]`, which must be followed by `(`. */
  function ParseLinkDisplay(s: string): Option<Link> {
    if |s| >= 4 && s[0] == '[' && s[|s| - 1] == ')' then
      match FirstIndex(s[1..|s| - 1], ']')
      case None => None
      case Some(k) =>
        if k + 2 < |s| && s[k + 2] == '(' then Some(Link(s[k + 3..|s| - 1], s[1..k + 1])) else None
    else None
  }

  /** A link whose label has no `]` can be read back from its display unambiguously. */
  lemma LinkDisplayRoundTrip(l: Link)
    requires ']' !in l.text
    ensures ParseLinkDisplay(LinkDisplay(l)) == Some(l)
  {
    var s := LinkDisplay(l);
    var t := l.text;
    assert s[1..|s| - 1] == t + [']'] + ("(" + l.link);
    FirstIndexAfter(t, ']', "(" + l.link);
    assert s[|t| + 2] == '(';
    assert s[|t| + 3..|s| - 1] == l.link;
    assert s[1..|t| + 1] == t;
  }
}
