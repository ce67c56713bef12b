/**
  The state of `App` in src/app.rs as a value, and what each of its operations does to it:
  the link-selector buffer, clamped scrolling, recording the content length, installing a new
  page and following the selected link.  The class `AppModel.App` is tied to these functions.
*/
module Viewport {
  import opened Wrappers
  import opened Parser
  import Base26
  import Links
  import Events

  /** Rust's `usize` on a 64-bit target, and `u16` for the frame size. */
  const USIZE_MAX: nat := 0xFFFF_FFFF_FFFF_FFFF
  type usize = n: nat | n <= USIZE_MAX
  type u16 = n: nat | n < 0x1_0000

  /** `saturating_sub(5)` in `scroll`: the last lines stay reachable without scrolling past the content. */
  const ScrollMargin: nat := 5

  /** Rows of the frame that page-wise scrolling does not count: `frame_size.height - 2`. */
  const PageChrome: nat := 2

  datatype View = View(
    running: bool,
    paragraphs: seq<Paragraph>,
    pageTitle: string,
    links: map<string, Link>,
    verticalScroll: usize,
    frameWidth: u16,
    frameHeight: u16,
    pageContentLength: usize,
    selector: string)

  /** `App::default()`. */
  const Initial: View := View(true, [], "", map[], 0, 0, 0, 0, "")

  function SaturatingSub(a: nat, b: nat): (r: nat)
    ensures r <= a && (r == 0 || r == a - b) && (a >= b ==> r == a - b)
  {
    if a >= b then a - b else 0
  }

  // ----- Link selector (src/app.rs:92-100, 114-116) -----

  /** `link_select(c)`: the letter is appended only to an empty buffer or to one that is already a key. */
  function AfterLinkSelect(v: View, c: char): (r: View)
    ensures r == v.(selector := r.selector)
    ensures r.selector == v.selector + [c] || r.selector == v.selector
    ensures r.selector != v.selector <==> (v.selector == [] || v.selector in v.links)
  {
    if v.selector in v.links || v.selector == [] then v.(selector := v.selector + [c]) else v
  }

  /** `delete_link_selector`: `String::pop`, dropping the last character if there is one. */
  function AfterDeleteLinkSelector(v: View): (r: View)
    ensures r == v.(selector := r.selector)
    ensures v.selector == [] ==> r == v
    ensures v.selector != [] ==> r.selector + [v.selector[|v.selector| - 1]] == v.selector
  {
    if v.selector == [] then v else v.(selector := v.selector[..|v.selector| - 1])
  }

  /** Every non-empty proper prefix of the buffer is a key of the link table. */
  ghost predicate PrefixesAreKeys(v: View) {
    forall m :: 0 < m < |v.selector| ==> v.selector[..m] in v.links
  }

  lemma LinkSelectKeepsPrefixes(v: View, c: char)
    requires PrefixesAreKeys(v)
    ensures PrefixesAreKeys(AfterLinkSelect(v, c))
  {
    var s := AfterLinkSelect(v, c).selector;
    if s != v.selector {
      forall m | 0 < m < |s| ensures s[..m] in v.links {
        if m < |v.selector| {
          assert s[..m] == v.selector[..m];
        } else {
          assert s[..m] == v.selector;
        }
      }
    }
  }

  lemma DeleteKeepsPrefixes(v: View)
    requires PrefixesAreKeys(v)
    ensures PrefixesAreKeys(AfterDeleteLinkSelector(v))
  {
    var s := AfterDeleteLinkSelector(v).selector;
    forall m | 0 < m < |s| ensures s[..m] in v.links {
      assert s[..m] == v.selector[..m];
    }
  }

  /** Backspace undoes an accepted letter. */
  lemma DeleteUndoesLinkSelect(v: View, c: char)
    requires v.selector == [] || v.selector in v.links
    ensures AfterDeleteLinkSelector(AfterLinkSelect(v, c)) == v
  {
    assert (v.selector + [c])[..|v.selector|] == v.selector;
  }

  /**
    From an empty buffer, two letters: the first is always taken, the second only when the first
    alone is already a code of a link.
  */
  lemma TwoLetters(v: View, c1: char, c2: char)
    requires v.selector == []
    ensures AfterLinkSelect(AfterLinkSelect(v, c1), c2).selector == if [c1] in v.links then [c1, c2] else [c1]
  {
    assert [] + [c1] == [c1] && [c1] + [c2] == [c1, c2];
  }

  // ----- Scrolling (src/app.rs:118-150) -----

  datatype Direction = Up | Down

  /** The keys `scroll` handles; any other key panics. */
  predicate IsScrollKey(key: Events.KeyCode) {
    key.Home? || key.End? || key.Up? || key.Down? || key.PageUp? || key.PageDown?
  }

  predicate IsPageKey(key: Events.KeyCode) {
    key.PageUp? || key.PageDown?
  }

  function DirectionOf(key: Events.KeyCode): Direction
    requires IsScrollKey(key)
  {
    if key.Home? || key.Up? || key.PageUp? then Up else Down
  }

  /** How far a key scrolls: everything for Home/End, one line, or the frame height less the chrome. */
  function AmountOf(key: Events.KeyCode, height: nat): (r: nat)
    requires IsScrollKey(key)
    requires IsPageKey(key) ==> height >= PageChrome
    ensures IsPageKey(key) ==> r + PageChrome == height
  {
    if key.Home? || key.End? then USIZE_MAX
    else if key.Up? || key.Down? then 1
    else height - PageChrome
  }

  /**
    When `scroll(key)` runs without panicking: the key is a scroll key, `height - 2` does not
    underflow, and the `vertical_scroll + amount` of a downward move does not overflow.
  */
  predicate CanScroll(v: View, key: Events.KeyCode) {
    IsScrollKey(key) &&
    (IsPageKey(key) ==> v.frameHeight >= PageChrome) &&
    (DirectionOf(key) == Down ==> v.verticalScroll + AmountOf(key, v.frameHeight) <= USIZE_MAX)
  }

  /**
    The new offset: moving down stops at the content length less the margin (and never moves up
    past a position it is already beyond, except to that bound), moving up stops at 0.
  */
  function ScrollTarget(pos: usize, length: usize, amount: nat, dir: Direction): (r: usize)
    requires dir == Down ==> pos + amount <= USIZE_MAX
    ensures dir == Down ==> r <= pos + amount && r <= SaturatingSub(length, ScrollMargin)
    ensures dir == Down ==> r == pos + amount || r == SaturatingSub(length, ScrollMargin)
    ensures dir == Up ==> r <= pos && pos <= r + amount && (r == 0 || r + amount == pos)
  {
    match dir
    case Down =>
      var bound := SaturatingSub(length, ScrollMargin);
      if pos + amount <= bound then pos + amount else bound
    case Up => SaturatingSub(pos, amount)
  }

  /** `scroll(key)`: only the offset changes. */
  function AfterScroll(v: View, key: Events.KeyCode): (r: View)
    requires CanScroll(v, key)
    ensures r == v.(verticalScroll := r.verticalScroll)
  {
    v.(verticalScroll := ScrollTarget(v.verticalScroll, v.pageContentLength, AmountOf(key, v.frameHeight), DirectionOf(key)))
  }

  /** The offset is within the range a downward scroll can reach. */
  predicate WithinBound(v: View) {
    v.verticalScroll <= SaturatingSub(v.pageContentLength, ScrollMargin)
  }

  /** Home can always be taken and always goes to the top. */
  lemma HomeGoesToTop(v: View)
    ensures CanScroll(v, Events.Home)
    ensures AfterScroll(v, Events.Home).verticalScroll == 0
  {
  }

  /** End overflows `vertical_scroll + usize::MAX` unless the view is at the top; from there it goes to the bound. */
  lemma EndOnlyFromTop(v: View)
    ensures CanScroll(v, Events.End) <==> v.verticalScroll == 0
    ensures v.verticalScroll == 0 ==>
      AfterScroll(v, Events.End).verticalScroll == SaturatingSub(v.pageContentLength, ScrollMargin)
  {
  }

  /** Up or PageUp never increases the offset; Down or PageDown never leaves the reachable range. */
  lemma ScrollDirections(v: View, key: Events.KeyCode)
    requires CanScroll(v, key)
    ensures DirectionOf(key) == Up ==> AfterScroll(v, key).verticalScroll <= v.verticalScroll
    ensures DirectionOf(key) == Down ==> WithinBound(AfterScroll(v, key))
    ensures WithinBound(v) ==> WithinBound(AfterScroll(v, key))
  {
  }

  /** PageDown and PageUp move by exactly `height - 2` rows when nothing clamps them. */
  lemma PageMovesByFrame(v: View)
    requires v.frameHeight >= PageChrome
    ensures v.verticalScroll + v.frameHeight - PageChrome <= SaturatingSub(v.pageContentLength, ScrollMargin) ==>
      CanScroll(v, Events.PageDown) &&
      AfterScroll(v, Events.PageDown).verticalScroll == v.verticalScroll + v.frameHeight - PageChrome
    ensures v.verticalScroll >= v.frameHeight - PageChrome ==>
      AfterScroll(v, Events.PageUp).verticalScroll == v.verticalScroll - (v.frameHeight - PageChrome)
  {
  }

  /** `n` one-line Down scrolls from a position in range. */
  function DownTimes(v: View, n: nat): (r: View)
    requires WithinBound(v)
    ensures WithinBound(r) && r == v.(verticalScroll := r.verticalScroll)
  {
    if n == 0 then v
    else
      var w := DownTimes(v, n - 1);
      AfterScroll(w, Events.Down)
  }

  /** After n one-line Down scrolls the offset is the old one plus n, clamped at the bound. */
  lemma {:induction false} DownTimesClamps(v: View, n: nat)
    requires WithinBound(v)
    ensures var bound := SaturatingSub(v.pageContentLength, ScrollMargin);
      DownTimes(v, n).verticalScroll == if v.verticalScroll + n <= bound then v.verticalScroll + n else bound
  {
    if n > 0 {
      DownTimesClamps(v, n - 1);
    }
  }

  /** `set_scroll_params(length)`: records the length and does not re-clamp the offset. */
  function AfterSetScrollParams(v: View, length: usize): (r: View)
    ensures r.pageContentLength == length && r == v.(pageContentLength := length)
  {
    v.(pageContentLength := length)
  }

  /** A shorter content length can leave the offset beyond the new bound; the next Down scroll pulls it back. */
  lemma ShrinkingLeavesOffset(v: View, length: usize)
    requires v.verticalScroll > SaturatingSub(length, ScrollMargin)
    ensures !WithinBound(AfterSetScrollParams(v, length))
    ensures CanScroll(AfterSetScrollParams(v, length), Events.Down) ==>
      AfterScroll(AfterSetScrollParams(v, length), Events.Down).verticalScroll == SaturatingSub(length, ScrollMargin)
  {
  }

  // ----- New page and link navigation (src/app.rs:102-112, 152-175) -----

  /** The link table `set_html` builds for these paragraphs. */
  function LinkTable(ps: seq<Paragraph>): map<string, Link> {
    Links.IndexOf(Links.PageLinks(ps))
  }

  /** `set_html` once the page is parsed: new title, paragraphs and link table, offset 0; the selector and the content length stay. */
  function AfterSetPage(v: View, page: Page): (r: View)
    ensures r.verticalScroll == 0 && r.selector == v.selector && r.pageContentLength == v.pageContentLength
    ensures r.running == v.running && r.frameWidth == v.frameWidth && r.frameHeight == v.frameHeight
    ensures r.pageTitle == page.title && r.paragraphs == page.paragraphs
  {
    v.(pageTitle := page.title, paragraphs := page.paragraphs, links := LinkTable(page.paragraphs), verticalScroll := 0)
  }

  /** After a new page the table holds link k under the code of k, and nothing else. */
  lemma SetPageIndexesLinks(v: View, page: Page)
    ensures var r := AfterSetPage(v, page);
      var ls := Links.PageLinks(page.paragraphs);
      (forall k :: 0 <= k < |ls| ==> Base26.Encode(k) in r.links && r.links[Base26.Encode(k)] == ls[k]) &&
      (forall s :: s in r.links <==> Base26.Decode(s).Some? && Base26.Decode(s).value < |ls|)
  {
    Links.IndexOfLookup(Links.PageLinks(page.paragraphs));
  }

  /** `go_to_selected_link` up to the fetch: the target of the selected link, and an emptied buffer. */
  function AfterGoToSelectedLink(v: View): (r: (View, Option<string>))
    ensures v.selector !in v.links ==> r == (v, None)
    ensures v.selector in v.links ==> r == (v.(selector := ""), Some(v.links[v.selector].link))
  {
    if v.selector in v.links then (v.(selector := ""), Some(v.links[v.selector].link)) else (v, None)
  }
}
