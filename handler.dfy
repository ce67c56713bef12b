/**
  Event dispatch of src/handler.rs as a step on the `App` state.  `handle_key_events` runs two
  `match`es one after the other: the first quits on Ctrl+`c` / Ctrl+`C`, the second routes the
  same key to scrolling, a new random page, the link selector or link navigation.  Fetching a
  page is left to the caller: the step reports it as an `Effect`.
*/
module Handler {
  import opened Wrappers
  import opened Events
  import V = Viewport
  import Base26

  /** The fetch a key asks for: `new_page` (a random article) or the target of the selected link. */
  datatype Effect = NoEffect | FetchRandomPage | FetchLink(target: string)

  /** `c` or `C` with exactly the CONTROL modifier held. */
  predicate IsQuitChord(ev: KeyEvent) {
    (ev.code == Char('c') || ev.code == Char('C')) && ev.modifiers == {Control}
  }

  /** The keys the second `match` passes to `scroll`. */
  predicate IsScrollArm(code: KeyCode) {
    code.Down? || code.Up? || code.PageDown? || code.PageUp?
  }

  predicate IsSelectorLetter(code: KeyCode) {
    code.Char? && 'a' <= code.c <= 'z'
  }

  /** The handler does not panic: what it passes to `scroll` can be scrolled. */
  predicate KeyHandled(v: V.View, ev: KeyEvent) {
    IsScrollArm(ev.code) ==> V.CanScroll(v, ev.code)
  }

  /** The first `match`. */
  function AfterQuitMatch(v: V.View, ev: KeyEvent): V.View {
    if IsQuitChord(ev) then v.(running := false) else v
  }

  /** The second `match`: what the key does once the quit check is done. */
  function Dispatch(q: V.View, code: KeyCode): (r: (V.View, Effect))
    requires IsScrollArm(code) ==> V.CanScroll(q, code)
    ensures r.0.running == q.running && r.0.links == q.links && r.0.paragraphs == q.paragraphs
    ensures r.0.verticalScroll != q.verticalScroll ==> IsScrollArm(code)
    ensures r.1 == FetchRandomPage <==> code == Char(' ')
    ensures r.1.FetchLink? <==> code == Enter && q.selector in q.links
  {
    if IsScrollArm(code) then (V.AfterScroll(q, code), NoEffect)
    else if code == Char(' ') then (q, FetchRandomPage)
    else if IsSelectorLetter(code) then (V.AfterLinkSelect(q, code.c), NoEffect)
    else if code == Backspace then (V.AfterDeleteLinkSelector(q), NoEffect)
    else if code == Enter then
      var (w, target) := V.AfterGoToSelectedLink(q);
      (w, if target.Some? then FetchLink(target.value) else NoEffect)
    else (q, NoEffect)
  }

  /** `handle_key_events`: the new state and the fetch it asks for. */
  function KeyStep(v: V.View, ev: KeyEvent): (r: (V.View, Effect))
    requires KeyHandled(v, ev)
    ensures r.0.pageTitle == v.pageTitle && r.0.pageContentLength == v.pageContentLength
    ensures r.0.frameWidth == v.frameWidth && r.0.frameHeight == v.frameHeight
    ensures r.1.FetchLink? ==> ev.code == Enter && v.selector in v.links && r.1.target == v.links[v.selector].link
  {
    Dispatch(AfterQuitMatch(v, ev), ev.code)
  }

  /** The mouse handler does not panic: a wheel-down is a one-line Down scroll. */
  predicate MouseHandled(v: V.View, kind: MouseEventKind) {
    kind.ScrollDown? ==> V.CanScroll(v, Down)
  }

  /** `handle_mouse_events`. */
  function MouseStep(v: V.View, kind: MouseEventKind): (r: V.View)
    requires MouseHandled(v, kind)
    ensures r == v.(verticalScroll := r.verticalScroll)
    ensures r.verticalScroll != v.verticalScroll ==> kind.ScrollDown? || kind.ScrollUp?
  {
    match kind
    case ScrollDown => V.AfterScroll(v, Down)
    case ScrollUp => V.AfterScroll(v, Up)
    case _ => v
  }

  // ----- What the dispatch promises -----

  /** The application stops exactly on the quit chord, whatever else the key does. */
  lemma QuitExactlyOnChord(v: V.View, ev: KeyEvent)
    requires KeyHandled(v, ev)
    ensures KeyStep(v, ev).0.running == (v.running && !IsQuitChord(ev))
  {
  }

  /** Ctrl+`c` quits and, through the second `match`, also types `c`. */
  lemma CtrlLowerCQuitsAndTypes(v: V.View)
    ensures KeyHandled(v, KeyEvent(Char('c'), {Control}))
    ensures KeyStep(v, KeyEvent(Char('c'), {Control})) == (V.AfterLinkSelect(v.(running := false), 'c'), NoEffect)
  {
  }

  /** Ctrl+`C` quits and does nothing else; `c` without exactly CONTROL does not quit. */
  lemma CtrlUpperCOnlyQuits(v: V.View, mods: set<Modifier>)
    ensures KeyStep(v, KeyEvent(Char('C'), {Control})) == (v.(running := false), NoEffect)
    ensures mods != {Control} ==> KeyStep(v, KeyEvent(Char('c'), mods)) == (V.AfterLinkSelect(v, 'c'), NoEffect)
  {
  }

  /** Only Down, Up, PageDown and PageUp move the view: Home, End and the panic of `scroll` are never reached. */
  lemma OnlyScrollArmsScroll(v: V.View, ev: KeyEvent)
    requires KeyHandled(v, ev)
    ensures KeyStep(v, ev).0.verticalScroll != v.verticalScroll ==> IsScrollArm(ev.code)
    ensures IsScrollArm(ev.code) ==> V.IsScrollKey(ev.code)
    ensures ev.code == Home || ev.code == End ==> KeyStep(v, ev) == (AfterQuitMatch(v, ev), NoEffect)
  {
  }

  /** Keys with no arm of their own change nothing (save the quit chord). */
  lemma UnlistedKeysIgnored(v: V.View, ev: KeyEvent)
    requires !IsScrollArm(ev.code) && !IsSelectorLetter(ev.code) && ev.code != Char(' ')
    requires ev.code != Backspace && ev.code != Enter && !IsQuitChord(ev)
    ensures KeyHandled(v, ev) && KeyStep(v, ev) == (v, NoEffect)
  {
  }

  /** Enter follows the selected link and empties the buffer, or does nothing when the buffer is no key. */
  lemma EnterFollowsSelection(v: V.View, mods: set<Modifier>)
    ensures v.selector in v.links ==>
      KeyStep(v, KeyEvent(Enter, mods)) == (v.(selector := ""), FetchLink(v.links[v.selector].link))
    ensures v.selector !in v.links ==> KeyStep(v, KeyEvent(Enter, mods)) == (v, NoEffect)
  {
  }

  /** Backspace pops the buffer; Space asks for a random page and changes nothing yet. */
  lemma BackspaceAndSpace(v: V.View, mods: set<Modifier>)
    ensures KeyStep(v, KeyEvent(Backspace, mods)) == (V.AfterDeleteLinkSelector(v), NoEffect)
    ensures KeyStep(v, KeyEvent(Char(' '), mods)) == (v, FetchRandomPage)
  {
  }

  predicate AllLower(s: string) {
    forall i :: 0 <= i < |s| ==> Base26.IsLower(s[i])
  }

  /** Through this handler the buffer only ever holds letters `a` to `z`, so it is always a code or empty. */
  lemma SelectorStaysLower(v: V.View, ev: KeyEvent)
    requires KeyHandled(v, ev) && AllLower(v.selector)
    ensures AllLower(KeyStep(v, ev).0.selector)
    ensures KeyStep(v, ev).0.selector == [] || Base26.IsCodeString(KeyStep(v, ev).0.selector)
  {
    var s := KeyStep(v, ev).0.selector;
    if IsSelectorLetter(ev.code) && s != v.selector {
      assert s == v.selector + [ev.code.c];
      assert forall i :: 0 <= i < |s| ==> s[i] == if i < |v.selector| then v.selector[i] else ev.code.c;
    } else if ev.code == Backspace && v.selector != [] {
      assert forall i :: 0 <= i < |s| ==> s[i] == v.selector[i];
    }
  }

  /**
    One key leaves the page and its link table alone, and keeps the buffer's non-empty proper
    prefixes keys of that table.
  */
  lemma KeyStepKeepsTableAndPrefixes(v: V.View, ev: KeyEvent)
    requires KeyHandled(v, ev) && V.PrefixesAreKeys(v)
    ensures KeyStep(v, ev).0.links == v.links && KeyStep(v, ev).0.paragraphs == v.paragraphs
    ensures V.PrefixesAreKeys(KeyStep(v, ev).0)
  {
    var q := AfterQuitMatch(v, ev);
    assert V.PrefixesAreKeys(q);
    if IsSelectorLetter(ev.code) {
      V.LinkSelectKeepsPrefixes(q, ev.code.c);
    } else if ev.code == Backspace {
      V.DeleteKeepsPrefixes(q);
    }
  }

  /** A key never panics while the view is in range and the frame leaves room for paging. */
  lemma KeysHandledInRange(v: V.View, ev: KeyEvent)
    requires V.WithinBound(v) && v.frameHeight >= V.PageChrome && v.verticalScroll + v.frameHeight <= V.USIZE_MAX
    ensures KeyHandled(v, ev)
  {
  }

  /** The wheel scrolls one line; every other mouse event changes nothing. */
  lemma WheelScrollsOneLine(v: V.View, kind: MouseEventKind)
    requires MouseHandled(v, kind)
    ensures kind == ScrollUp ==> MouseStep(v, kind).verticalScroll == V.SaturatingSub(v.verticalScroll, 1)
    ensures kind == ScrollDown ==> MouseStep(v, kind) == v.(verticalScroll :=
      var bound := V.SaturatingSub(v.pageContentLength, V.ScrollMargin);
      if v.verticalScroll + 1 <= bound then v.verticalScroll + 1 else bound)
    ensures !kind.ScrollDown? && !kind.ScrollUp? ==> MouseStep(v, kind) == v
  {
  }
}
