/**
  The link table of src/app.rs (`App::links`): `set_html` walks the paragraphs and their elements
  in order and stores the k-th link under the base-26 code of k.
*/
module Links {
  import opened Wrappers
  import opened Parser
  import Base26

  /** The links among a run of elements, in order. */
  function ElemLinks(es: seq<ParagraphElement>): seq<Link> {
    if es == [] then []
    else (if es[0].LinkElement? then [es[0].link] else []) + ElemLinks(es[1..])
  }

  /** The links of a page, paragraph after paragraph: link number k of the page is `PageLinks(ps)[k]`. */
  function PageLinks(ps: seq<Paragraph>): seq<Link> {
    if ps == [] then [] else PageLinks(ps[..|ps| - 1]) + ElemLinks(ps[|ps| - 1].elems)
  }

  /** The table after inserting the links in order, each under the code of its number. */
  function IndexOf(ls: seq<Link>): map<string, Link> {
    if ls == [] then map[] else IndexOf(ls[..|ls| - 1])[Base26.Encode(|ls| - 1) := ls[|ls| - 1]]
  }

  /** How many links an element adds: one for a link, none for a text run. */
  function LinksIn(e: ParagraphElement): nat {
    if e.LinkElement? then 1 else 0
  }

  /** One more element: its link, if it is one, joins the end. */
  lemma ElemLinksStep(es: seq<ParagraphElement>, j: nat)
    requires j < |es|
    ensures ElemLinks(es[..j + 1]) == ElemLinks(es[..j]) + (if es[j].LinkElement? then [es[j].link] else [])
    ensures |ElemLinks(es[..j + 1])| == |ElemLinks(es[..j])| + LinksIn(es[j])
  {
    assert es[..j + 1] == es[..j] + [es[j]];
    ElemLinksAppend(es[..j], [es[j]]);
    ElemLinksSingle(es[j]);
  }

  /** The links from element `j` on: those of element `j`, then those of the rest. */
  lemma CountLinksStep(es: seq<ParagraphElement>, j: nat)
    requires j < |es|
    ensures CountLinks(es[j..]) == LinksIn(es[j]) + CountLinks(es[j + 1..])
  {
    var rest := es[j..];
    assert rest != [] && rest[0] == es[j] && rest[1..] == es[j + 1..];
  }

  /** One more paragraph: its links join the end. */
  lemma PageLinksStep(ps: seq<Paragraph>, i: nat)
    requires i < |ps|
    ensures PageLinks(ps[..i + 1]) == PageLinks(ps[..i]) + ElemLinks(ps[i].elems)
  {
    assert ps[..i + 1][..i] == ps[..i];
  }

  /** One more link: it is inserted under the code of its number. */
  lemma IndexOfStep(ls: seq<Link>, l: Link)
    ensures IndexOf(ls + [l]) == IndexOf(ls)[Base26.Encode(|ls|) := l]
  {
    var s := ls + [l];
    assert s != [] && |s| - 1 == |ls| && s[|s| - 1] == l;
    assert s[..|s| - 1] == ls;
  }

  /** Indexing element `j` after the links before it: a link goes in under the code of their count. */
  lemma IndexElementStep(done: seq<Link>, es: seq<ParagraphElement>, j: nat)
    requires j < |es|
    ensures var before := done + ElemLinks(es[..j]);
      IndexOf(done + ElemLinks(es[..j + 1])) ==
        (if es[j].LinkElement? then IndexOf(before)[Base26.Encode(|before|) := es[j].link] else IndexOf(before))
    ensures |done + ElemLinks(es[..j + 1])| == |done + ElemLinks(es[..j])| + LinksIn(es[j])
  {
    var before := done + ElemLinks(es[..j]);
    ElemLinksStep(es, j);
    if es[j].LinkElement? {
      assert done + ElemLinks(es[..j + 1]) == before + [es[j].link];
      IndexOfStep(before, es[j].link);
    } else {
      assert done + ElemLinks(es[..j + 1]) == before;
    }
  }

  /** `m` holds link k of `ls` under the code of k, and nothing else. */
  ghost predicate Indexes(m: map<string, Link>, ls: seq<Link>) {
    forall s :: IndexesAt(m, ls, s)
  }

  /** `Indexes` at the one string `s`. */
  ghost predicate IndexesAt(m: map<string, Link>, ls: seq<Link>, s: string) {
    (s in m <==> Base26.Decode(s).Some? && Base26.Decode(s).value < |ls|) &&
    (s in m ==> m[s] == ls[Base26.Decode(s).value])
  }

  /**
    A string is a key of the table exactly when it is a code denoting a link number below the number
    of links, and it then maps to that link; in particular link k is found under the code of k and
    the table has one entry per link.
  */
  lemma {:induction false} IndexOfLookup(ls: seq<Link>)
    ensures forall s :: s in IndexOf(ls) <==> Base26.Decode(s).Some? && Base26.Decode(s).value < |ls|
    ensures forall s :: s in IndexOf(ls) ==> IndexOf(ls)[s] == ls[Base26.Decode(s).value]
    ensures forall k :: 0 <= k < |ls| ==> Base26.Encode(k) in IndexOf(ls) && IndexOf(ls)[Base26.Encode(k)] == ls[k]
    decreases |ls|
  {
    forall s ensures s in IndexOf(ls) <==> Base26.Decode(s).Some? && Base26.Decode(s).value < |ls| {
      LookupAt(ls, s);
    }
    forall s | s in IndexOf(ls) ensures IndexOf(ls)[s] == ls[Base26.Decode(s).value] {
      LookupAt(ls, s);
    }
    IndexOfIndexes(ls);
    IndexesFinds(IndexOf(ls), ls);
  }

  /** `IndexOfLookup` at one string. */
  lemma LookupAt(ls: seq<Link>, s: string)
    ensures s in IndexOf(ls) <==> Base26.Decode(s).Some? && Base26.Decode(s).value < |ls|
    ensures s in IndexOf(ls) ==> IndexOf(ls)[s] == ls[Base26.Decode(s).value]
  {
    IndexOfIndexes(ls);
    assert IndexesAt(IndexOf(ls), ls, s);
  }

  lemma {:induction false} IndexOfIndexes(ls: seq<Link>)
    ensures Indexes(IndexOf(ls), ls)
    decreases |ls|
  {
    if ls != [] {
      var n := |ls| - 1;
      var front := ls[..n];
      IndexOfIndexes(front);
      assert IndexOf(ls) == IndexOf(front)[Base26.Encode(n) := ls[n]];
      assert front + [ls[n]] == ls;
      IndexesInsert(IndexOf(front), front, ls[n]);
    }
  }

  /** Inserting the next link under the code of its number keeps the table exact. */
  lemma IndexesInsert(m: map<string, Link>, ls: seq<Link>, l: Link)
    requires Indexes(m, ls)
    ensures Indexes(m[Base26.Encode(|ls|) := l], ls + [l])
  {
    var m', ls' := m[Base26.Encode(|ls|) := l], ls + [l];
    forall s ensures IndexesAt(m', ls', s) {
      assert IndexesAt(m, ls, s);
      InsertAt(m, ls, l, s);
    }
  }

  /** `IndexesInsert` at one string. */
  lemma InsertAt(m: map<string, Link>, ls: seq<Link>, l: Link, s: string)
    requires IndexesAt(m, ls, s)
    ensures IndexesAt(m[Base26.Encode(|ls|) := l], ls + [l], s)
  {
    Base26.DecodeEncode(|ls|);
    if Base26.Decode(s).Some? && Base26.Decode(s).value == |ls| {
      Base26.EncodeDecode(s);
    }
  }

  /** An exact table finds link k under the code of k. */
  lemma IndexesFinds(m: map<string, Link>, ls: seq<Link>)
    requires Indexes(m, ls)
    ensures forall k :: 0 <= k < |ls| ==> Base26.Encode(k) in m && m[Base26.Encode(k)] == ls[k]
  {
    forall k | 0 <= k < |ls| ensures Base26.Encode(k) in m && m[Base26.Encode(k)] == ls[k] {
      Base26.DecodeEncode(k);
      assert IndexesAt(m, ls, Base26.Encode(k));
    }
  }

  lemma {:induction false} ElemLinksAppend(a: seq<ParagraphElement>, b: seq<ParagraphElement>)
    ensures ElemLinks(a + b) == ElemLinks(a) + ElemLinks(b)
    decreases |a|
  {
    if a == [] {
      assert a + b == b;
    } else {
      ConsSplit(a, b);
      ElemLinksAppend(a[1..], b);
      var h := if a[0].LinkElement? then [a[0].link] else [];
      assert h + (ElemLinks(a[1..]) + ElemLinks(b)) == (h + ElemLinks(a[1..])) + ElemLinks(b);
    }
  }

  /** The links of a run of elements: those of the first element, then those of the rest. */
  lemma ElemLinksFront(es: seq<ParagraphElement>)
    requires es != []
    ensures ElemLinks(es) == (if es[0].LinkElement? then [es[0].link] else []) + ElemLinks(es[1..])
    ensures |ElemLinks(es)| == LinksIn(es[0]) + |ElemLinks(es[1..])|
  {
  }

  /** The links of a parsed paragraph are those of its sound `a` children: each `href` with its first child's text, in order. */
  lemma {:induction false} ElemLinksOfAnchors(kids: seq<Dom.Node>, es: seq<ParagraphElement>)
    requires ElementsOf(kids) == Ok(es)
    ensures ElemLinks(es) == AnchorLinks(kids)
    decreases kids
  {
    if kids != [] {
      ElementsOfOk(kids);
      var run, rest := ChildRun(kids[0]).value, ElementsOf(kids[1..]).value;
      ElemLinksOfAnchors(kids[1..], rest);
      ElemLinksAppend(run, rest);
      if run != [] {
        assert run == [run[0]];
        ElemLinksSingle(run[0]);
      }
    }
  }

  /** Link `j` of a run is its first element, when that is a link and `j` is 0, or else a link of the rest. */
  lemma ElemLinksAt(es: seq<ParagraphElement>, j: nat)
    requires es != [] && j < |ElemLinks(es)|
    ensures es[0].LinkElement? && j == 0 ==> ElemLinks(es)[j] == es[0].link
    ensures !(es[0].LinkElement? && j == 0) ==>
      LinksIn(es[0]) <= j && j - LinksIn(es[0]) < |ElemLinks(es[1..])| &&
      ElemLinks(es)[j] == ElemLinks(es[1..])[j - LinksIn(es[0])]
  {
    ElemLinksFront(es);
    var h, t := if es[0].LinkElement? then [es[0].link] else [], ElemLinks(es[1..]);
    assert ElemLinks(es) == h + t;
    if !es[0].LinkElement? {
      assert h + t == t;
    } else if j > 0 {
      assert (h + t)[j] == t[j - 1];
    }
  }

  /** The position among the elements of the link numbered `j` in the run. */
  function LinkElementIndex(es: seq<ParagraphElement>, j: nat): nat
    requires j < |ElemLinks(es)|
    decreases |es|
  {
    if es[0].LinkElement? && j == 0 then 0 else 1 + LinkElementIndex(es[1..], j - LinksIn(es[0]))
  }

  /** Link `j` of a run is the element at `LinkElementIndex`, with exactly `j` links before it. */
  lemma {:induction false} LinkElementIndexFinds(es: seq<ParagraphElement>, j: nat)
    requires j < |ElemLinks(es)|
    ensures var i := LinkElementIndex(es, j);
      i < |es| && es[i].LinkElement? && es[i].link == ElemLinks(es)[j] && CountLinks(es[..i]) == j
    decreases |es|
  {
    ElemLinksAt(es, j);
    if !(es[0].LinkElement? && j == 0) {
      var i' := LinkElementIndex(es[1..], j - LinksIn(es[0]));
      LinkElementIndexFinds(es[1..], j - LinksIn(es[0]));
      assert es[..i' + 1][0] == es[0] && es[..i' + 1][1..] == es[1..][..i'];
    }
  }

  /** A single element carries its own link, if it is one. */
  lemma ElemLinksSingle(e: ParagraphElement)
    ensures ElemLinks([e]) == (if e.LinkElement? then [e.link] else [])
  {
    assert [e][1..] == [];
  }
  /** The links of a paragraph are exactly its link elements: as many as `CountLinks` counts. */
  lemma {:induction false} ElemLinksCount(es: seq<ParagraphElement>)
    ensures |ElemLinks(es)| == CountLinks(es)
    decreases |es|
  {
    if es != [] {
      ElemLinksFront(es);
      ElemLinksCount(es[1..]);
    }
  }
}
