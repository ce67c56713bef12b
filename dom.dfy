/**
  The already-parsed HTML tree the extractor walks, and the two queries it makes of it:
  "every element with this tag name, in document order" (a CSS type selector) and
  "the text of an element" (all descendant text nodes joined).
*/
module Dom {

  datatype Node =
    | Element(name: string, attrs: map<string, string>, children: seq<Node>)
    | Text(text: string)
    | Other  // comment, doctype, processing instruction

  /** The direct children of a node; only elements have any. */
  function Children(n: Node): seq<Node> {
    if n.Element? then n.children else []
  }

  /** Every element named `name` in the forest, in pre-order (document order). */
  function SelectAll(forest: seq<Node>, name: string): (r: seq<Node>)
    ensures forall i :: 0 <= i < |r| ==> r[i].Element? && r[i].name == name
  {
    if forest == [] then []
    else
      (match forest[0]
       case Element(tag, _, kids) => (if tag == name then [forest[0]] else []) + SelectAll(kids, name)
       case _ => [])
      + SelectAll(forest[1..], name)
  }

  /** Some element of the forest, at any depth, is named `name`. */
  predicate HasElement(forest: seq<Node>, name: string) {
    if forest == [] then false
    else
      (match forest[0]
       case Element(tag, _, kids) => tag == name || HasElement(kids, name)
       case _ => false)
      || HasElement(forest[1..], name)
  }

  /** `x` is a node of the forest, at any depth. */
  predicate Within(x: Node, forest: seq<Node>)
    decreases forest
  {
    exists i :: 0 <= i < |forest| && (forest[i] == x || (forest[i].Element? && Within(x, forest[i].children)))
  }

  /** The concatenated text of every text node in the forest, in document order. */
  function TextContent(forest: seq<Node>): string {
    if forest == [] then ""
    else
      (match forest[0]
       case Element(_, _, kids) => TextContent(kids)
       case Text(s) => s
       case Other => "")
      + TextContent(forest[1..])
  }

  /** The selector finds something exactly when the tree holds such an element. */
  lemma {:induction false} SelectAllFinds(forest: seq<Node>, name: string)
    ensures SelectAll(forest, name) != [] <==> HasElement(forest, name)
    decreases forest
  {
    if forest != [] {
      SelectAllFinds(forest[1..], name);
      if forest[0].Element? {
        SelectAllFinds(forest[0].children, name);
      }
    }
  }

  /** Selection respects document order: the matches of a forest are the matches of its parts, in turn. */
  lemma {:induction false} SelectAllAppend(f: seq<Node>, g: seq<Node>, name: string)
    ensures SelectAll(f + g, name) == SelectAll(f, name) + SelectAll(g, name)
    decreases f
  {
    if f == [] {
      assert f + g == g;
    } else {
      assert (f + g)[0] == f[0];
      assert (f + g)[1..] == f[1..] + g;
      SelectAllAppend(f[1..], g, name);
    }
  }

  /** Text content respects document order as well. */
  lemma {:induction false} TextContentAppend(f: seq<Node>, g: seq<Node>)
    ensures TextContent(f + g) == TextContent(f) + TextContent(g)
    decreases f
  {
    if f == [] {
      assert f + g == g;
    } else {
      assert (f + g)[0] == f[0];
      assert (f + g)[1..] == f[1..] + g;
      TextContentAppend(f[1..], g);
    }
  }

  /** A node is within a non-empty forest exactly when it is the first tree, inside it, or within the rest. */
  lemma WithinCons(x: Node, forest: seq<Node>)
    requires forest != []
    ensures Within(x, forest) <==>
      forest[0] == x || (forest[0].Element? && Within(x, forest[0].children)) || Within(x, forest[1..])
  {
    var rest := forest[1..];
    if Within(x, forest) {
      var i :| 0 <= i < |forest| && (forest[i] == x || (forest[i].Element? && Within(x, forest[i].children)));
      if i > 0 {
        assert rest[i - 1] == forest[i];
      }
    }
    if Within(x, rest) {
      var i :| 0 <= i < |rest| && (rest[i] == x || (rest[i].Element? && Within(x, rest[i].children)));
      assert forest[i + 1] == rest[i];
    }
  }

  /** The selector returns exactly the elements of that name found at any depth of the forest. */
  lemma {:induction false} SelectAllWithin(forest: seq<Node>, name: string, x: Node)
    ensures x in SelectAll(forest, name) <==> x.Element? && x.name == name && Within(x, forest)
    decreases forest
  {
    if forest != [] {
      var h := forest[0];
      WithinCons(x, forest);
      SelectAllWithin(forest[1..], name, x);
      if h.Element? {
        SelectAllWithin(h.children, name, x);
        assert SelectAll(forest, name) ==
          ((if h.name == name then [h] else []) + SelectAll(h.children, name)) + SelectAll(forest[1..], name);
      } else {
        assert SelectAll(forest, name) == SelectAll(forest[1..], name);
      }
    }
  }
}
