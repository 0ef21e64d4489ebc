/** The element state of one FAQ page, as the two accordion scripts and the
    search filter see it: a fixed list of FAQ items, each bundling its
    question, its answer panel, its toggle glyph and the texts the search
    reads.  The scripts never create or remove items; they only change the
    fields of these records. */
module Faq {

  datatype Option<+T> = None | Some(value: T) {
    function GetOr(default: T): T {
      match this
      case Some(v) => v
      case None => default
    }
  }

  /** The inline `max-height` style of an answer panel: `0`, `none` or `<n>px`. */
  datatype MaxHeight = Zero | NoneH | Px(px: nat)

  /** The inline `display` style of an item: not set by any script yet, `block` or `none`. */
  datatype Display = DisplayUnset | DisplayBlock | DisplayNone

  /** `.faq-question`: its `active` class and its `aria-expanded` attribute. */
  datatype Question = Question(active: bool, ariaExpanded: bool)

  /** `.faq-answer`: its `active` class and the inline styles the accordion sets
      (`max-height`, `overflow: hidden` versus `visible`, `height: auto`). */
  datatype Answer = Answer(active: bool, maxHeight: MaxHeight, overflowHidden: bool, heightAuto: bool)

  /** `.faq-toggle`: its `active` class and its text content. */
  datatype Toggle = Toggle(active: bool, glyph: string)

  /** One `.faq-item`.  A missing answer or toggle child is `None`; `questionText` is
      the text of `.faq-question span` and `answerIntro` that of `.answer-intro`
      (either may be missing); `listItems` are the texts of the
      `.simple-list li` and `.column-list li` entries in document order;
      `display` and `highlighted` (the `search-highlight` class) are written
      by the search filter. */
  datatype FaqItem = FaqItem(
    question: Question,
    answer: Option<Answer>,
    toggle: Option<Toggle>,
    questionText: Option<string>,
    answerIntro: Option<string>,
    listItems: seq<string>,
    display: Display,
    highlighted: bool)

  /** The collapsed glyph, and the expanded glyph main.js writes (U+2212 MINUS SIGN). */
  const Plus: string := "+"
  const Minus: string := "\U{2212}"

  /** The keys that activate a focused question: Enter and Space. */
  predicate IsActivationKey(key: string) {
    key == "Enter" || key == " "
  }

  /** Both children the accordion handlers need are present. */
  predicate Complete(it: FaqItem) {
    it.answer.Some? && it.toggle.Some?
  }

  /** The item's answer carries the `active` class (the panel is open). */
  predicate AnswerActive(it: FaqItem) {
    it.answer.Some? && it.answer.value.active
  }

  /** The single-open invariant: no two items have an active answer. */
  predicate AtMostOneOpen(s: seq<FaqItem>) {
    forall j, k :: 0 <= j < |s| && 0 <= k < |s| && AnswerActive(s[j]) && AnswerActive(s[k]) ==> j == k
  }

  /** Everything the accordion handlers never write: the texts and the search state. */
  predicate SameContent(a: FaqItem, b: FaqItem) {
    a.questionText == b.questionText && a.answerIntro == b.answerIntro && a.listItems == b.listItems &&
    a.display == b.display && a.highlighted == b.highlighted
  }

  /** Everything the search filter never writes: the accordion state and the texts. */
  predicate SameAccordion(a: FaqItem, b: FaqItem) {
    a.question == b.question && a.answer == b.answer && a.toggle == b.toggle &&
    a.questionText == b.questionText && a.answerIntro == b.answerIntro && a.listItems == b.listItems
  }
}
