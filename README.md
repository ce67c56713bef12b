# CLIkipedia core in Dafny

CLIkipedia is a terminal reader for Wikipedia articles. This project models its core:

- **Paragraph extractor** (`HtmlParser::parse_page`, src/parser.rs). It turns a parsed HTML
  document into a `Page`: a title plus paragraphs. Each paragraph is a list of text runs and links.
  The module also covers the `Display` impls for links and paragraphs.
- **`App` state machine** (src/app.rs):
  - the link table that `set_html` rebuilds;
  - the link-selector buffer of typed code letters;
  - the scroll offset and its clamping;
  - `get_text`, which turns paragraphs into styled lines and highlights the selected link.
- **Event dispatch** (src/handler.rs): routes key and mouse events to the `App` operations.

Module layout:

- `Dom` stands in for the parsed HTML tree. It provides a pre-order `select` and the text content
  of a forest. The HTML tokeniser itself is not modelled.
- `Parser` models ParsePage and ParseParagraph as loops. They are proved equal to the recursive
  definitions `PageOf` and `ElementsOf`, and the parser's properties are proved about those.
- `Base26` is the link-code codec. Link 0 is "a", link 25 is "z" and link 26 is "aa".
- `Links` holds the links of a page in reading order and the table that maps a code to its link.
- `Render` defines the lines `get_text` produces (`PageLines`) and the `[code]` span of
  `format_link_ref` (`FormatLinkRef`).
- `Viewport` collects the state of `App` in one value `View`. It has one pure function for each of
  `link_select`, `delete_link_selector`, `go_to_selected_link`, `scroll`, `set_scroll_params` and
  the page installed by `set_html`.
- `Handler` defines `KeyStep` and `MouseStep`, the pure meaning of the two handlers. `KeyStep` is
  the quit check followed by `Dispatch`, the second `match`.
- `AppModel.App` is a class whose fields are those of `App`. Its methods update the fields in place,
  with loops where the source has loops. Each method's contract is stated in one of these ways:
  - The new `Snapshot()` is the matching function of `Viewport` or `Handler` applied to the old
    one: `LinkSelect`, `DeleteLinkSelector`, `GoToSelectedLink`, `Scroll`, `SetScrollParams`,
    `SetHtml`, `HandleKeyEvents`, `Dispatch` and `HandleMouseEvents`.
  - The new `Snapshot()` is a one-field update of the old one:
    - `Quit` sets the running flag;
    - `Resize` sets the frame;
    - `IndexLinks` sets the table to `Viewport.LinkTable`;
    - `IndexParagraph` sets the table to `Links.IndexOf` of the links so far.
  - The state does not change:
    - `GetText`, `ParagraphLine` and `ElementLine` return the `Render` value they draw;
    - `LinkSelectorExists` returns whether the buffer is a key.
- `Selection` connects the link table to what is drawn, for the case where the table belongs to the
  paragraphs on screen:
  - the buffer names a table entry exactly when some link is drawn highlighted;
  - that highlighted link is the one Enter follows;
  - it is drawn with the label `[buffer]`.

Where the code and the design description of the program disagree, the model follows the code:

- Whitespace-only text nodes are kept as text runs, and empty paragraphs are kept as well. The
  description says both are dropped. See `Parser.TextChildrenVerbatim` and
  `Parser.PageParagraphs`.
- Every `a` child becomes a link, whatever its attributes. The description filters anchors by a
  relation marker. An anchor with no `href`, no child, or a non-text first child panics on
  `unwrap`; it is not dropped. Here the panic is a `ParseError`.
- A text run of a `span`, `b` or `i` element is that element's first child only, and it is never
  emphasized. The description flattens all descendant text and sets the emphasis flag for bold and
  italic. The model follows app.rs, whose `Text` carries the emphasis flag that `get_text` matches
  on. src/parser.rs declares `Text(String)`, while src/app.rs:200-201 matches `Text(text, bool)`.
- A new page does not reset the selector buffer. The description says it does.
- `set_scroll_params` does not re-clamp the offset. The description says it does.
- The title is the text of all text nodes of the first `title` element, joined unchanged. The
  description says italic markup inside the title is stripped. See `Parser.TitleOf`.

## Model

| member | source | states |
|---|---|---|
| Base26.Encode | src/app.rs:164 | a code is a non-empty string of the letters a to z; it is one letter exactly for links 0 to 25 |
| Base26.Decode | src/app.rs:204-205 | a string decodes to a number exactly when it is a non-empty string of lower-case letters |
| Base26.ValueOfEncode | src/app.rs:164 | the numeral value of the code of n is n + 1 (bijective base 26) |
| Base26.DecodeEncode | src/app.rs:204-205 | decoding the code of link n gives n back |
| Base26.EncodeDecode | src/app.rs:204-205 | every code string is the code of the number it decodes to |
| Base26.EncodeInjective | src/app.rs:164 | two link numbers have the same code only if they are equal, so no table entry overwrites another |
| Base26.FirstCodes | src/app.rs:164 | the codes run a, b, ..., z, aa, ab, ..., zz, aaa |
| Dom.SelectAll | src/parser.rs:73-77 | every match of the selector is an element with the selected name |
| Dom.SelectAllFinds | src/parser.rs:122-124 | the selector finds something exactly when the tree holds such an element at some depth |
| Dom.SelectAllAppend | src/parser.rs:77 | matches come in document order: those of a forest are those of its parts, in turn |
| Dom.TextContentAppend | src/parser.rs:125 | the title text joins text nodes in document order |
| Dom.SelectAllWithin | src/parser.rs:73-77 | a node is among the matches exactly when it is an element of the selected name found at some depth of the tree |
| Parser.ParsePage | src/parser.rs:71-131 | the loop returns the page `PageOf` defines, or the first panic it meets |
| Parser.ParseParagraph | src/parser.rs:78-118 | the loop over one `p` returns the elements `ElementsOf` defines, or the panic it meets |
| Parser.OneParagraphPerP | src/parser.rs:77-120 | exactly one paragraph per `p`, in order, each built from that element's own children |
| Parser.PageParagraphs | src/parser.rs:71-131 | a page has one paragraph for every `p` element of the document, empty ones included, and the title from `TitleOf` |
| Parser.PanicsOnBrokenAnchor | src/parser.rs:98-108 | a paragraph fails to parse exactly when a direct child is an `a` with no href, no child or a non-text first child; the error is that of the first such child |
| Parser.ChildRun | src/parser.rs:81-117 | a child fails exactly when it is a broken anchor; otherwise it yields at most one element, a link exactly for an `a`, namely its `href` with its first child's text, a plain run verbatim for a text node, a `span`/`b`/`i` as one plain run holding its first child's text (empty when that child is not text, nothing when it has no children), and nothing for any other node |
| Parser.IgnoredChildDropped | src/parser.rs:110-116 | a child that is not text, `span`, `b`, `i` or `a` can be removed from a paragraph without changing its elements |
| Parser.ParagraphShape | src/parser.rs:80-118 | a paragraph has exactly one element per text child, anchor and non-empty `span`, `b` or `i` child, no emphasized run, and one link per `a` child |
| Parser.ElementsInChildOrder | src/parser.rs:80-118 | children are read in order: two runs of siblings give their elements one after the other |
| Parser.TextChildrenVerbatim | src/parser.rs:113-115 | text children become plain runs one for one, verbatim, whitespace-only ones included |
| Parser.TitleFallbackWhenAbsent | src/parser.rs:122-128 | with no `title` element the title is "-"; otherwise it is the text of the first one, which may itself be "-" |
| Parser.TitleOf | src/parser.rs:122-128 | with no `title` element the title is "-"; otherwise it is the joined text of a `title` element of the document |
| Parser.MixedParagraphExample | src/parser.rs:83-115 | a text node, a `b` run and an anchor give a text run, a text run and a link, in that order |
| Parser.SingleChild | src/parser.rs:80-118 | a paragraph with a single child holds exactly the run that child contributes |
| Parser.LinkDisplay | src/parser.rs:16-20 | a link displays as `[`, its text, `](`, its target and `)`, so four characters longer than text and target |
| Parser.ElementDisplay | src/parser.rs:28-35 | a text run displays as its text, whatever its emphasis; a link displays exactly as `Parser.LinkDisplay` shows it, `[text](link)`, four characters longer than its parts |
| Parser.ElementsDisplay | src/parser.rs:52-61 | the displays of a run are at least four characters per link, and a single element displays as itself |
| Parser.ParagraphDisplay | src/parser.rs:52-61 | the loop over the elements writes the displays that `ElementsDisplay` defines |
| Parser.ElementsDisplayAppend | src/parser.rs:52-61 | a paragraph displays as its elements' displays concatenated in order |
| Parser.LinkDisplayRoundTrip | src/parser.rs:16-20 | a link whose label holds no `]` is read back unchanged from its `[text](link)` display |
| Links.ElemLinksStep | src/app.rs:161-168 | proof step for the loop: visiting one more element appends its link, if it is a link, to the links met so far |
| Links.PageLinksStep | src/app.rs:160-170 | proof step for the loop: visiting one more paragraph appends that paragraph's links in order |
| Links.IndexOfStep | src/app.rs:164 | proof step for the loop: adding link number k to the table puts it under the code of k and changes nothing else |
| Links.IndexOfLookup | src/app.rs:158-170 | a string is a key exactly when it decodes to a link number in range; the key of link k maps to link k |
| Links.ElemLinksAppend | src/app.rs:161-168 | the links of two runs of elements are those of each, in turn |
| Links.ElemLinksCount | src/app.rs:161-168 | a paragraph has as many table entries as link elements |
| Links.ElemLinksOfAnchors | src/parser.rs:92-108 | the links of a parsed paragraph are exactly those of its sound `a` children, each `href` with its first child's text, in child order |
| Links.IndexElementStep | src/app.rs:161-168 | proof step for the loop: indexing one more element adds a link under the code of the number of links before it, and leaves the table alone for a text run |
| Links.LookupAt | src/app.rs:158-170 | a string is a key of the table exactly when it decodes to a number below the link count, and it then maps to that link |
| Links.ElemLinksAt | src/app.rs:161-168 | link j of a run is its first element when that is a link and j is 0, and otherwise a link of the rest, counted after the first |
| Links.LinkElementIndexFinds | src/app.rs:161-168 | link j of a paragraph is a link element with exactly j links before it |
| Links.CountLinksStep | src/app.rs:198-216 | proof step for the loop: the link counter moves on by one at a link and stays at a text run |
| Render.FormatLinkRef | src/app.rs:227-232 | a link reference is a single span in the link's style, of the form `[...]` |
| Render.LinkRefDecodes | src/app.rs:227-232 | the code between the brackets decodes back to the link's number |
| Render.ParagraphSpansStep | src/app.rs:198-217 | proof step for the loop: one more element appends its spans, numbered after the links before it in the paragraph |
| Render.DrawRunAppend | src/app.rs:199-217 | the spans of two runs of elements are those of the first, then those of the second, numbered after the first run's links |
| Render.ParagraphSpansSplit | src/app.rs:199-217 | the spans of a paragraph are those before element i, then its own, numbered after the links before it, then the rest |
| Render.ParagraphSpansAdvance | src/app.rs:199-217 | proof step for the loop: moving one element's spans onto those already built keeps the whole paragraph's spans |
| Render.PageLinesStep | src/app.rs:195-223 | proof step for the loop: one more paragraph appends its lines, numbered after the links of the paragraphs before it |
| Render.ParagraphSpansEmpty | src/app.rs:219-222 | a paragraph has no spans exactly when it has no elements, and never fewer spans than elements |
| Render.PageLinesShape | src/app.rs:219-222 | two lines per non-empty paragraph and none for an empty one; even lines carry spans and odd lines are blank |
| Render.ParagraphLinkLabelled | src/app.rs:202-215 | the j-th link of a paragraph is drawn as its label followed by `[code]` of link number start + j |
| Render.PageLinkLabelled | src/app.rs:192-225 | link number k of the page is drawn as its label followed by `[code of k]`, selected exactly when the buffer decodes to k |
| Viewport.SaturatingSub | src/app.rs:136-141 | the difference, or 0 when it would be negative; never more than the first operand |
| Viewport.AfterLinkSelect | src/app.rs:92-96 | only the buffer changes; the letter is appended exactly when the buffer is empty or is already a key |
| Viewport.AfterDeleteLinkSelector | src/app.rs:98-100 | the last letter is removed, and an empty buffer stays as it is |
| Viewport.LinkSelectKeepsPrefixes | src/app.rs:92-96 | typing keeps every non-empty proper prefix of the buffer a key of the table |
| Viewport.DeleteKeepsPrefixes | src/app.rs:98-100 | deleting keeps every non-empty proper prefix of the buffer a key of the table |
| Viewport.DeleteUndoesLinkSelect | src/app.rs:92-100 | Backspace undoes a letter the buffer accepted |
| Viewport.TwoLetters | src/app.rs:92-96 | from an empty buffer the second letter is kept only if the first letter alone is a code in the table |
| Viewport.AmountOf | src/app.rs:124-132 | PageUp and PageDown move by the frame height less the two chrome rows |
| Viewport.ScrollTarget | src/app.rs:134-142 | down: the old offset plus the amount, capped at the content length less 5; up: the old offset less the amount, floored at 0 |
| Viewport.AfterScroll | src/app.rs:118-145 | scrolling changes only the offset |
| Viewport.HomeGoesToTop | src/app.rs:125 | Home never overflows and always goes to offset 0 |
| Viewport.EndOnlyFromTop | src/app.rs:126-139 | End avoids overflow exactly when the offset is 0, and it then goes to the bound |
| Viewport.ScrollDirections | src/app.rs:134-142 | an upward scroll never increases the offset; a downward scroll lands in range; a scroll from inside the range stays inside |
| Viewport.PageMovesByFrame | src/app.rs:129-130 | paging moves exactly height - 2 rows when nothing clamps the move |
| Viewport.DownTimes | src/app.rs:128-139 | repeated Down scrolls stay in range and change only the offset |
| Viewport.DownTimesClamps | src/app.rs:128-139 | n Down scrolls give the old offset plus n, clamped at the bound |
| Viewport.AfterSetScrollParams | src/app.rs:147-150 | setting the length changes only the length; the offset is not re-clamped |
| Viewport.ShrinkingLeavesOffset | src/app.rs:147-150 | a shorter length can leave the offset out of range; the next Down pulls it back to the bound |
| Viewport.AfterSetPage | src/app.rs:152-175 | a new page installs its title and paragraphs and moves the offset to 0; the buffer, the length, the frame and the running flag stay |
| Viewport.SetPageIndexesLinks | src/app.rs:158-170 | after a new page, link k sits under the code of k, and the table holds nothing else |
| Viewport.AfterGoToSelectedLink | src/app.rs:102-112 | with the buffer a key: the buffer is emptied and that link's target is fetched; otherwise nothing changes and nothing is fetched |
| Handler.QuitExactlyOnChord | src/handler.rs:6-13 | the app stops exactly on `c` or `C` with exactly CONTROL held |
| Handler.CtrlLowerCQuitsAndTypes | src/handler.rs:6-21 | Ctrl+`c` quits and then also goes to the selector, as the letter `c` |
| Handler.CtrlUpperCOnlyQuits | src/handler.rs:6-24 | Ctrl+`C` only quits; `c` without exactly CONTROL is only a letter |
| Handler.OnlyScrollArmsScroll | src/handler.rs:14-17 | only Down, Up, PageDown and PageUp move the offset; Home and End are ignored by the handler |
| Handler.UnlistedKeysIgnored | src/handler.rs:14-25 | every other key changes nothing and fetches nothing |
| Handler.EnterFollowsSelection | src/handler.rs:23 | Enter fetches the selected link's target and empties the buffer, or does nothing when the buffer is not a key |
| Handler.BackspaceAndSpace | src/handler.rs:18-22 | Backspace deletes a letter; Space asks for a random page and changes nothing else |
| Handler.SelectorStaysLower | src/handler.rs:21 | the buffer only ever holds the letters a to z, so it is empty or a code string |
| Handler.KeyStepKeepsTableAndPrefixes | src/handler.rs:5-27 | keys never change the paragraphs or the table, and they keep the buffer's proper prefixes keys |
| Handler.KeysHandledInRange | src/handler.rs:14-17 | no key panics while the offset is in range and the frame has room |
| Handler.WheelScrollsOneLine | src/handler.rs:29-41 | the wheel scrolls one line up, saturating at 0, or one line down, capped at the content length less 5; every other mouse event is ignored |
| Handler.Dispatch | src/handler.rs:14-25 | the second `match` never quits and never changes the page or the table; only a scroll arm moves the offset; Space and only Space asks for a random page; a link is fetched exactly on Enter with the buffer a key |
| Handler.KeyStep | src/handler.rs:5-27 | a key keeps the title, the length and the frame; a link is fetched only on Enter, and it is the target the buffer names in the table |
| Handler.MouseStep | src/handler.rs:29-41 | a mouse event changes at most the offset, and only the wheel changes it |
| AppModel.App.constructor | src/app.rs:40-66 | running, no page, no links, offset 0, zero-sized frame, empty buffer |
| AppModel.App.Quit | src/app.rs:82-85 | only the running flag changes, to false |
| AppModel.App.Resize | src/app.rs:87-90 | only the frame size changes |
| AppModel.App.LinkSelect | src/app.rs:92-96 | the new state is `Viewport.AfterLinkSelect` of the old |
| AppModel.App.DeleteLinkSelector | src/app.rs:98-100 | the new state is `Viewport.AfterDeleteLinkSelector` of the old |
| AppModel.App.GoToSelectedLink | src/app.rs:102-112 | the new state and the target to fetch are `Viewport.AfterGoToSelectedLink` of the old state |
| AppModel.App.LinkSelectorExists | src/app.rs:114-116 | true exactly when the buffer is a key of the table |
| AppModel.App.Scroll | src/app.rs:118-145 | the new state is `Viewport.AfterScroll` of the old |
| AppModel.App.SetScrollParams | src/app.rs:147-150 | the new state is `Viewport.AfterSetScrollParams` of the old |
| AppModel.App.SetHtml | src/app.rs:152-175 | on a parse panic nothing changes and the panic is reported; otherwise the new state is `Viewport.AfterSetPage` for the parsed page |
| AppModel.App.IndexLinks | src/app.rs:158-170 | the loops leave the table equal to `Viewport.LinkTable` of the paragraphs and change nothing else |
| AppModel.App.IndexParagraph | src/app.rs:161-169 | the inner loop adds one paragraph's links under the codes that follow the ones already used |
| AppModel.App.GetText | src/app.rs:192-225 | the loops return `Render.PageLines` of the paragraphs and the buffer |
| AppModel.App.ParagraphLine | src/app.rs:197-218 | the inner loop returns the paragraph's spans and the link counter advanced by its links |
| AppModel.App.ElementLine | src/app.rs:199-216 | a text run is one span, plain or italic; a link is its label then its `[code]`, in the selected style exactly when the buffer decodes to the counter |
| AppModel.App.HandleKeyEvents | src/handler.rs:5-27 | the new state and the requested fetch are `Handler.KeyStep` of the old state and the event |
| AppModel.App.Dispatch | src/handler.rs:14-26 | the new state and the fetch of the second `match` are `Handler.Dispatch` of the state the quit check left |
| AppModel.App.HandleMouseEvents | src/handler.rs:29-41 | the new state is `Handler.MouseStep` of the old |
| Selection.HighlightedIsSelected | src/app.rs:202-211 | with the table built for the page, link k is highlighted exactly when the buffer is a key decoding to k, and Enter then follows link k |
| Selection.SelectedIffSomeHighlighted | src/app.rs:202-211 | the buffer is a key exactly when some link of the page is drawn highlighted |
| Selection.SelectedLinkDrawnHighlighted | src/app.rs:192-232 | the link the buffer selects is drawn in the selected style, its label followed by `[buffer]` |
| Selection.SetPageMatchesTable | src/app.rs:152-170 | a new page installs the table built for its own paragraphs |
| Selection.KeyStepKeepsMatch | src/handler.rs:5-27 | key events keep the table matching the page |

## Left out

- Fetching articles over the network (src/wikipedia.rs) is left out. Space and Enter return the
  fetch they ask for as a `Handler.Effect`. A failed fetch reaches `todo!()` at src/app.rs:109,
  which is not modelled.
- `new_page` is not modelled, because it is network and file I/O: it fetches a random page and
  writes the HTML to `htmls/<title>.html`.
- `init` and `tick` are not modelled; `init` only calls `new_page` and `tick` is empty.
- Terminal drawing (src/ui.rs) is not modelled, and neither is the word-wrapped line count it
  passes to `set_scroll_params`; the length is a parameter.
- src/main.rs, which fetches one random page and prints its parse, is not modelled.
- The `flog!` logging of src/util.rs is not modelled, because it is file I/O.
- HTML tokenising and tree building by the `scraper` crate are not modelled. The document arrives
  as a `Dom.Node` forest, and `select` is a pre-order walk.
- Base26.Encode and Base26.Decode: src/util.rs does not contain the bodies of `usize_to_base26`
  and `base26_to_usize`; Base26 defines them as bijective base 26, so that "a" is link 0. Decoding
  a string that is not a code gives `None`, where the source returns some `usize`.
- The `ScrollbarState` fields are left out, because they only mirror the offset and length for
  drawing.
- The `kind` and `state` of a key event are left out, because the handler never reads them. The
  position and modifiers of a mouse event are left out for the same reason.
- Viewport.CanScroll: the overflow and underflow points of `scroll` are preconditions, not modelled
  behaviour. A debug build panics at them; the wrap-around of a release build is not modelled.
  They are:
  - `vertical_scroll + amount` above `usize::MAX` for Down, PageDown and End. For End this is any
    offset above 0; a release build wraps it to offset - 1, capped at the bound, so End then moves
    one line up instead of to the end.
  - `height as usize - 2` for a frame shorter than 2 rows (src/app.rs:129-130). A release build
    wraps it to a huge amount.
  - The `panic!` on a non-scroll key (src/app.rs:131).
- The `num_links` and `link_counter` counters are unbounded.
- Parser.PageOf: a panic of the extractor is an `Err` result. `AppModel.App.SetHtml` then leaves
  the state unchanged, where the program would abort.
