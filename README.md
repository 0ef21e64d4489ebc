# FAQ page accordion and search, modelled in Dafny

The repository is the client-side script of one FAQ page. Two pieces of it are
logic rather than DOM plumbing, and this project models and proves them:

- **The single-open accordion of `js/main.js`** (`toggleFaq` and the click and
  keydown bindings that call it). Clicking a question closes its item if the
  answer is open. Otherwise it first clears the `active` class from every
  answer, question and toggle that carries it, then opens the clicked item at
  its measured height.
- **The search filter of `js/main.js`** (`performSearch`, `showSearchResults`,
  `hideSearchResults`). The term is lowercased and trimmed. A term of two or
  more UTF-16 code units shows and highlights exactly the items whose joined,
  lowercased text contains it, and hides the rest. A no-results banner appears
  when nothing matched.
- **The second accordion of `js/responsive.js`**, an independent click handler
  bound to the same questions. It is keyed on the question's `active` class. It
  resets every other item unconditionally and never touches heights.

The page is a fixed list of `FaqItem` records (module `Faq`, `faq.dfy`). Each
record holds the question's class and `aria-expanded`, an optional answer
(class, `max-height` as `Zero | NoneH | Px(n)`, hidden overflow,
`height: auto`), an optional toggle (class and glyph), the texts the search
reads, and the item's `display` and `search-highlight` state. The handlers
work on an `array<FaqItem>` and update it in place. Each is proved equal to a
specification function of the old contents: `Accordion.ToggleFaqSpec`,
`Search.SearchItems`/`Search.SearchBanner` and `ResponsiveAccordion.ClickSpec`.
The lemmas state the properties of those functions.

Points where the code's behaviour is easy to misread, and which the model
keeps as the code has them:

- The open path does not run the close procedure on the other items. It runs
  three passes over the elements that carry `active` (js/main.js:69-83). A
  question without `active` keeps its `aria-expanded`, and the passes never
  touch `height`.
- Toggling an item twice gives that item back its open or closed state, its
  question's class and `aria-expanded`, and its glyph, on any page
  (`ToggleFaqTwiceRestoresItem`). The other items come back unchanged only
  from an all-closed page (`ToggleFaqTwiceFromClosed`): opening clears every
  other item, and the second toggle does not reopen them.
- The search's length test at js/main.js:157 counts UTF-16 code units. A
  single character above U+FFFF (an emoji) is already a long term
  (`JsLength`, `AstralCharFilters`).
- `js/responsive.js:36` writes the three characters U+00E2 U+02C6 U+2019. These
  are the UTF-8 bytes of the minus sign read as Windows-1252. `js/main.js`
  writes U+2212. The model keeps both as written (`ResponsiveMinus`, `Minus`).
- The responsive handler looks up answer and toggle without a guard. If an
  item lacks one of them, a statement throws a TypeError and the handler stops
  there. `Click` models this: it returns `completed = false` and leaves the
  state the statements before the throw produced.

## Model

| member | source | states |
|---|---|---|
| `Accordion.ToggleFaq` | js/main.js:43-121 | the items become `ToggleFaqSpec` of the old items, for the clicked question and the measured height |
| `Accordion.CloseItem` | js/main.js:59-65 | closing leaves the item collapsed (answer inactive at max-height 0 with hidden overflow, question inactive, aria false, toggle inactive showing `+`) and keeps its texts, search state and `height` |
| `Accordion.OpenItem` | js/main.js:87-101 | opening leaves the item expanded (answer active at `Px(scrollHeight)` with visible overflow and height auto, question active, aria true, toggle active showing `−`) and keeps its texts and search state |
| `Accordion.ClearAnswer` | js/main.js:69-73 | afterwards the answer is not active; an active one gets max-height 0 and hidden overflow, keeps `height`, and nothing else of the item changes; an inactive one leaves the item as it was |
| `Accordion.ClearQuestion` | js/main.js:75-78 | afterwards the question is not active; an active one also gets aria false; answer, toggle and texts never change; an inactive question leaves the item as it was |
| `Accordion.ClearToggle` | js/main.js:80-83 | afterwards a present toggle is not active; an active one shows `+`; question, answer and texts never change; an inactive or missing toggle leaves the item as it was |
| `Accordion.ToggleFaqSpec` | js/main.js:46-101 | a toggle keeps the number of items and never changes their texts, display or highlight |
| `Accordion.ClearAll` | js/main.js:69-83 | after the three clearing passes no answer is active |
| `Accordion.ClearActiveAnswers` | js/main.js:69-73 | every active answer gets max-height 0, hidden overflow and loses `active`; other answers are unchanged |
| `Accordion.ClearActiveQuestions` | js/main.js:75-78 | every active question loses `active` and gets aria false; other questions are unchanged |
| `Accordion.ClearActiveToggles` | js/main.js:80-83 | every active toggle shows `+` and loses `active`; other toggles are unchanged |
| `Accordion.ToggleFaqMissingChildIsNoOp` | js/main.js:46-52 | with no answer or no toggle the toggle changes nothing at all |
| `Accordion.ToggleFaqClosesOpenItem` | js/main.js:57-66 | closing an open item sets it to inactive, aria false, `+`, max-height 0, hidden overflow; every other item is unchanged |
| `Accordion.ToggleFaqOpensClosedItem` | js/main.js:68-101 | opening sets the target active, aria true, `−`, max-height `Px(scrollHeight)`, visible overflow; every other item loses `active` everywhere, gets the closed styling where it had `active` and is unchanged where it did not |
| `Accordion.ToggleFaqOpenIsExclusive` | js/main.js:68-101 | after opening, an item's answer is active exactly when it is the target |
| `Accordion.ToggleFaqKeepsSingleOpen` | js/main.js:54-101 | if at most one answer was active before a toggle, at most one is active after it |
| `Accordion.ToggleFaqKeepsConsistent` | js/main.js:54-101 | if every complete item's question class, aria value, toggle class and glyph agree with its answer, they still agree after a toggle |
| `Accordion.ToggleFaqTwiceFromClosed` | js/main.js:57-101 | from an all-closed page, toggling one item twice leaves every item closed and every other item exactly as before |
| `Accordion.ToggleFaqTwiceRestoresItem` | js/main.js:54-101 | on any page, toggling a complete, consistent item twice gives it back its open or closed state, its question's class and aria value, and its toggle |
| `Accordion.KeyDown` | js/main.js:257-263 | Enter or Space has the effect of a toggle; any other key changes nothing |
| `Accordion.Relax` | js/main.js:104-109 | an answer still active loses its height limit and shows its overflow; whether it is active, the question, the toggle and the texts never change; an inactive answer leaves the item as it was |
| `Accordion.RelaxHeight` | js/main.js:104-109 | the deferred step applies `Relax` to the one item and changes no other item, and it preserves the single-open invariant and consistency |
| `Accordion.RelaxKeepsInvariants` | js/main.js:104-109 | relaxing one item keeps at most one answer active and keeps every item consistent |
| `Accordion.FirstActiveAnswer` | js/main.js:271 | the result is the first item in page order whose answer is active, or none if no answer is active |
| `Accordion.InitializeActiveAnswer` | js/main.js:271-277 | only the first active answer gets max-height none, visible overflow and height auto |
| `Search.Lower` | js/main.js:154 | the result has the input's length and no upper-case ASCII letter, and each character is the input's, lowercased (`LowerChar`: an ASCII capital moves up by 32 to its lower-case letter, anything else stays) |
| `Search.JsWhitespaceIsBmpNonLetter` | js/main.js:154 | every character `trim` strips (`IsJsWhitespace`) is at most U+FEFF and is not an ASCII letter |
| `Search.Normalize` | js/main.js:154 | the normalised term has no upper-case ASCII letter, is the lowercased term with only whitespace removed before and after it, and neither starts nor ends with whitespace |
| `Search.TrimStart` | js/main.js:154 | the result is a suffix of the input, only whitespace was dropped, and it does not start with whitespace |
| `Search.TrimEnd` | js/main.js:154 | the result is a prefix of the input, only whitespace was dropped, and it does not end with whitespace |
| `Search.Trim` | js/main.js:154 | the result is the part of the input at some position with only whitespace before and after it, it has no whitespace at either end, and it is empty exactly when the input is all whitespace |
| `Search.JsLength` | js/main.js:157 | the UTF-16 length lies between the number of characters and twice it, and equals it exactly when no character is above U+FFFF |
| `Search.Contains` | js/main.js:172 | `includes` holds exactly when the term occurs at some position of the text |
| `Search.ListText` | js/main.js:164-168 | the accumulated list text contains no upper-case ASCII letter |
| `Search.JoinedText` | js/main.js:161-170 | the joined text an item is searched by contains no upper-case ASCII letter |
| `Search.CollectListText` | js/main.js:164-168 | the loop accumulates each list entry, lowercased and followed by a space, in order |
| `Search.SearchOne` | js/main.js:160-179 | one item is shown and highlighted if its joined text contains the term, else hidden and not highlighted; the match is reported |
| `Search.SearchItem` | js/main.js:172-179 | filtering one item leaves its accordion state and texts unchanged and always sets its display |
| `Search.ResetItem` | js/main.js:184-187 | resetting one item leaves its accordion state and texts unchanged and always sets its display |
| `Search.SearchItems` | js/main.js:153-190 | the search keeps the number of items, never changes accordion state or texts, and always sets display |
| `Search.FilterItems` | js/main.js:157-182 | every item is filtered, and the flag reports whether any item matched |
| `Search.ShowAllItems` | js/main.js:183-188 | every item is shown and un-highlighted |
| `Search.SearchBanner` | js/main.js:182-188 | after a search the banner shows the no-results message exactly when the normalised term is 2 or more UTF-16 units long and no item matched, and the message carries the normalised term |
| `Search.ShowSearchResults` | js/main.js:192-224 | the banner shows the no-results message exactly when nothing was found, and it carries the term |
| `Search.HideSearchResults` | js/main.js:226-231 | the banner is not showing the no-results message |
| `Search.PerformSearch` | js/main.js:153-190 | the items become `SearchItems` and the banner `SearchBanner` of the old items and the raw term |
| `Search.ShortTermShowsAll` | js/main.js:183-189 | a normalised term shorter than 2 UTF-16 units shows every item, highlights none and hides the banner |
| `Search.LongTermFilters` | js/main.js:160-179 | with a term of UTF-16 length 2 or more, an item is shown and highlighted if the term is a substring of its joined text, and hidden and not highlighted otherwise |
| `Search.BannerReportsNoMatch` | js/main.js:213-223 | with a term of UTF-16 length 2 or more, the banner shows `NoResults(term)` exactly when no item matched, and is hidden exactly when one did |
| `Search.AstralCharFilters` | js/main.js:154-182 | a term of one character above U+FFFF normalises to itself and filters the items and sets the banner, as a long term does |
| `Search.LowerOfUpper` | js/main.js:154 | lowercasing an upper-cased string gives the same as lowercasing it directly |
| `Search.LowerOfLower` | js/main.js:154 | lowercasing is idempotent |
| `Search.SearchIgnoresCase` | js/main.js:154 | upper-casing or lower-casing the term changes neither the items nor the banner |
| `Search.ExampleTexts` | js/main.js:161-170 | the joined texts of the two example items are their lowercased questions followed by two spaces |
| `Search.ClaimExample` | js/main.js:153-182 | searching "claim" hides "What is covered?", shows and highlights "How do I file a claim?", and the banner stays hidden |
| `Search.NoMatchExample` | js/main.js:153-182 | searching "zzz" hides both example items and shows `NoResults("zzz")` |
| `Search.EmptyTermExample` | js/main.js:183-189 | an empty term shows both example items and hides the banner |
| `ResponsiveAccordion.Click` | js/responsive.js:10-39 | the items become `ClickSpec` of the old items, and `completed` says whether the handler ran to its end |
| `ResponsiveAccordion.ResetOther` | js/responsive.js:20-23 | another item ends with question and answer inactive and its layout untouched; with both children it is fully reset (`+`, aria false); with one missing, aria and toggle are left as the throw left them |
| `ResponsiveAccordion.SetCurrent` | js/responsive.js:28-38 | the clicked item's question and answer classes become `open` and its layout is untouched; with both children aria becomes `open` and the glyph the expanded or `+` one; with one missing, aria and toggle are left as the throw left them |
| `ResponsiveAccordion.ClickSpec` | js/responsive.js:10-39 | a click keeps the number of items |
| `ResponsiveAccordion.FirstBrokenFrom` | js/responsive.js:14-25 | the result is the first item other than the clicked one that lacks an answer or toggle, or none if all have both |
| `ResponsiveAccordion.KeyDown` | js/responsive.js:42-47 | Enter or Space has the effect of a click; any other key changes nothing |
| `ResponsiveAccordion.ClickCompletesIffAllComplete` | js/responsive.js:14-38 | the handler runs to its end exactly when every item has both an answer and a toggle |
| `ResponsiveAccordion.ClickResetsOthers` | js/responsive.js:14-25 | when every other item has both children (the clicked one need not), every other item ends with question and answer inactive, `+` and aria false, whatever its prior state |
| `ResponsiveAccordion.ClickOnActiveClosesAll` | js/responsive.js:11-32 | on a page where every item has both an answer and a toggle, a click on an active question leaves every item closed |
| `ResponsiveAccordion.ClickOnInactiveOpensOnlyIt` | js/responsive.js:33-38 | on a page where every item has both an answer and a toggle, a click on an inactive question opens that item (question and answer active, the expanded glyph, aria true) and only that one |
| `ResponsiveAccordion.ClickKeepsSingleOpen` | js/responsive.js:14-38 | on a page where every item has both an answer and a toggle, after a click every item's question and answer classes agree and at most one answer is active |
| `ResponsiveAccordion.ClickNeverTouchesLayout` | js/responsive.js:10-39 | a click, whether it completes or throws, never changes heights, overflow, the toggle's class or the texts |
| `ResponsiveAccordion.ClickAbortStopsAtBrokenItem` | js/responsive.js:14-25 | when another item lacks a child the handler does not complete, and the clicked item and every item after the broken one are unchanged |

## Left out

- The debounce of js/main.js:2-12 and the search bindings of js/main.js:124-151 (input, button, Enter on the field) are left out. They are timer and event-binding effects; each call of `PerformSearch` is one evaluation.
- The timers of `toggleFaq` are left out as timers. The height relaxation of js/main.js:104-109 is the separate step `RelaxHeight`; the delayed `scrollIntoView` of js/main.js:114-119 is left out because scrolling is a browser effect.
- `scrollHeight` is layout measurement and is an input parameter.
- The binding loop of js/main.js:242-268 is left out. It binds listeners, sets `tabindex` and `cursor`, and calls `preventDefault`/`stopPropagation`. The click listener only calls `toggleFaq`, which is `ToggleFaq`.
- `showNotification`, console logging and the `try`/`catch` of `initializeWebsite` are left out: they are logging and user notification.
- `addEnhancedStyles` is left out: it is a stylesheet constant behind an id guard.
- `toggleFaq` takes the answer to be `nextElementSibling` of the question. The model takes it to be the item's answer record. The `.faq-answer.active`, `.faq-question.active` and `.faq-toggle.active` queries are document-wide; the model covers only elements inside the items.
- `aria-expanded` is a boolean. An attribute that is absent at page load reads as false.
- The banner's markup, and its insertion before the first child of `.faq-container`, are left out. An absent banner and a hidden one are both `Hidden`. When the container is missing the message is shown on a detached element, which the model does not distinguish.
- Search.Normalize: lowercases only the ASCII letters, because full Unicode case mapping is not modelled. Trimming uses the complete set of characters `String.prototype.trim` removes.
- Search.JoinedText: the item texts are lowercased on the ASCII letters only, for the same reason.
- Search.ListText: the list entries are lowercased on the ASCII letters only, for the same reason.
- Search.Contains: strings are sequences of Unicode characters, not of UTF-16 units, so a term that is half a surrogate pair cannot be expressed; only the length test counts UTF-16 units (`JsLength`).
- The setup loop of js/responsive.js:5-9 is left out. It throws for an item without a question and stops binding later items. In the model every record has a question.
- The read-more scroll (js/responsive.js:51-63) and the IntersectionObserver animation (js/responsive.js:66-82) are left out: they are browser APIs.
- Both scripts bind handlers to the same questions, so one real click runs both. The model leaves that interaction out and gives each handler its own model.
