/** The single-open accordion of js/main.js: `toggleFaq`, the click and
    keydown bindings that call it, the deferred relaxation of the height
    limit and the initial state given to an answer that is already open at
    page load.  Items are identified by their position in the page. */
module Accordion {
  import opened Faq

  // ----- What one toggle does to one item -----

  /** The close procedure applied to the clicked item when it is open
      (js/main.js:59-65): the answer loses `active` and is clamped to height 0
      with hidden overflow; question and toggle lose `active`; aria false; `+`. */
  function CloseItem(it: FaqItem): (r: FaqItem)
    requires Complete(it)
    ensures Collapsed(r) && SameContent(r, it)
    ensures r.answer.value.heightAuto == it.answer.value.heightAuto
  {
    it.(answer := Some(it.answer.value.(maxHeight := Zero, overflowHidden := true, active := false)),
        question := Question(false, false),
        toggle := Some(Toggle(false, Plus)))
  }

  /** The open procedure of js/main.js:87-101: the height limit is lifted, the
      measured `scrollHeight` becomes the new `max-height`, and answer, question
      and toggle become active, expanded, `−`. */
  function OpenItem(it: FaqItem, scrollHeight: nat): (r: FaqItem)
    ensures Expanded(r, scrollHeight) && SameContent(r, it)
  {
    it.(answer := Some(Answer(true, Px(scrollHeight), false, true)),
        question := Question(true, true),
        toggle := Some(Toggle(true, Minus)))
  }

  /** The pass over `.faq-answer.active` (js/main.js:69-73). */
  function ClearAnswer(it: FaqItem): (r: FaqItem)
    ensures !AnswerActive(r) && r.answer.Some? == it.answer.Some?
    ensures r.question == it.question && r.toggle == it.toggle && SameContent(r, it)
    ensures AnswerActive(it) ==> r.answer.value.maxHeight == Zero && r.answer.value.overflowHidden &&
                                 r.answer.value.heightAuto == it.answer.value.heightAuto
    ensures !AnswerActive(it) ==> r == it
  {
    if AnswerActive(it) then
      it.(answer := Some(it.answer.value.(maxHeight := Zero, overflowHidden := true, active := false)))
    else it
  }

  /** The pass over `.faq-question.active` (js/main.js:75-78). */
  function ClearQuestion(it: FaqItem): (r: FaqItem)
    ensures !r.question.active
    ensures r.answer == it.answer && r.toggle == it.toggle && SameContent(r, it)
    ensures it.question.active ==> !r.question.ariaExpanded
    ensures !it.question.active ==> r == it
  {
    if it.question.active then it.(question := Question(false, false)) else it
  }

  /** The pass over `.faq-toggle.active` (js/main.js:80-83). */
  function ClearToggle(it: FaqItem): (r: FaqItem)
    ensures r.toggle.Some? == it.toggle.Some? && (r.toggle.Some? ==> !r.toggle.value.active)
    ensures r.question == it.question && r.answer == it.answer && SameContent(r, it)
    ensures it.toggle.Some? && it.toggle.value.active ==> r.toggle.value.glyph == Plus
    ensures !(it.toggle.Some? && it.toggle.value.active) ==> r == it
  {
    if it.toggle.Some? && it.toggle.value.active then it.(toggle := Some(Toggle(false, Plus))) else it
  }

  /** All three clearing passes, item by item (they touch disjoint fields). */
  function ClearAll(s: seq<FaqItem>): (r: seq<FaqItem>)
    ensures |r| == |s|
    ensures forall j :: 0 <= j < |s| ==> !AnswerActive(r[j])
  {
    seq(|s|, j requires 0 <= j < |s| => ClearToggle(ClearQuestion(ClearAnswer(s[j]))))
  }

  /** The whole effect of `toggleFaq` on the question of item `i`, with
      `scrollHeight` the height the answer measures once unclamped. */
  function ToggleFaqSpec(s: seq<FaqItem>, i: nat, scrollHeight: nat): (r: seq<FaqItem>)
    requires i < |s|
    ensures |r| == |s|
    ensures forall j :: 0 <= j < |s| ==> SameContent(r[j], s[j])
  {
    var it := s[i];
    if !Complete(it) then s
    else if it.answer.value.active then s[i := CloseItem(it)]
    else ClearAll(s)[i := OpenItem(it, scrollHeight)]
  }

  // ----- Predicates the properties are stated with -----

  /** The state the close procedure leaves an item in. */
  predicate Collapsed(it: FaqItem) {
    it.answer.Some? && !it.answer.value.active && it.answer.value.maxHeight == Zero &&
    it.answer.value.overflowHidden &&
    !it.question.active && !it.question.ariaExpanded &&
    it.toggle == Some(Toggle(false, Plus))
  }

  /** The state the open procedure leaves an item in. */
  predicate Expanded(it: FaqItem, scrollHeight: nat) {
    it.answer == Some(Answer(true, Px(scrollHeight), false, true)) &&
    it.question.active && it.question.ariaExpanded &&
    it.toggle == Some(Toggle(true, Minus))
  }

  /** Nothing about the item is open: no `active` class anywhere, aria false,
      and a present toggle shows `+`. */
  predicate AccordionClosed(it: FaqItem) {
    !it.question.active && !it.question.ariaExpanded &&
    (it.answer.Some? ==> !it.answer.value.active) &&
    (it.toggle.Some? ==> !it.toggle.value.active && it.toggle.value.glyph == Plus)
  }

  predicate AllClosed(s: seq<FaqItem>) {
    forall j :: 0 <= j < |s| ==> AccordionClosed(s[j])
  }

  /** Glyph, `aria-expanded` and the question's and toggle's classes agree with
      the answer's `active` state. */
  predicate Consistent(it: FaqItem) {
    Complete(it) ==>
      var on := it.answer.value.active;
      it.question.active == on && it.question.ariaExpanded == on &&
      it.toggle.value.active == on && it.toggle.value.glyph == (if on then Minus else Plus)
  }

  predicate AllConsistent(s: seq<FaqItem>) {
    forall j :: 0 <= j < |s| ==> Consistent(s[j])
  }

  // ----- Properties of toggleFaq -----

  lemma ToggleFaqMissingChildIsNoOp(s: seq<FaqItem>, i: nat, scrollHeight: nat)
    requires i < |s| && !Complete(s[i])
    ensures ToggleFaqSpec(s, i, scrollHeight) == s
  {
  }

  lemma ToggleFaqClosesOpenItem(s: seq<FaqItem>, i: nat, scrollHeight: nat)
    requires i < |s| && Complete(s[i]) && AnswerActive(s[i])
    ensures var r := ToggleFaqSpec(s, i, scrollHeight);
      Collapsed(r[i]) && r[i].answer.value.heightAuto == s[i].answer.value.heightAuto &&
      forall j :: 0 <= j < |s| && j != i ==> r[j] == s[j]
  {
  }

  lemma ToggleFaqOpensClosedItem(s: seq<FaqItem>, i: nat, scrollHeight: nat)
    requires i < |s| && Complete(s[i]) && !AnswerActive(s[i])
    ensures var r := ToggleFaqSpec(s, i, scrollHeight);
      Expanded(r[i], scrollHeight) &&
      forall j :: 0 <= j < |s| && j != i ==>
        AccordionOthersCleared(s[j], r[j])
  {
  }

  /** How the clearing passes leave an item other than the one opened: every
      `active` class is gone; what carried it got the closed styling; what did
      not carry it is untouched. */
  predicate AccordionOthersCleared(before: FaqItem, after: FaqItem) {
    !after.question.active && !AnswerActive(after) &&
    (after.toggle.Some? ==> !after.toggle.value.active) &&
    after.answer.Some? == before.answer.Some? && after.toggle.Some? == before.toggle.Some? &&
    (if AnswerActive(before)
     then after.answer.value.maxHeight == Zero && after.answer.value.overflowHidden &&
          after.answer.value.heightAuto == before.answer.value.heightAuto
     else after.answer == before.answer) &&
    (if before.question.active then !after.question.ariaExpanded else after.question == before.question) &&
    (if before.toggle.Some? && before.toggle.value.active then after.toggle.value.glyph == Plus
     else after.toggle == before.toggle)
  }

  /** Opening makes the target the one and only open item. */
  lemma ToggleFaqOpenIsExclusive(s: seq<FaqItem>, i: nat, scrollHeight: nat)
    requires i < |s| && Complete(s[i]) && !AnswerActive(s[i])
    ensures var r := ToggleFaqSpec(s, i, scrollHeight);
      forall j :: 0 <= j < |s| ==> (AnswerActive(r[j]) <==> j == i)
  {
  }

  /** The single-open invariant survives every toggle. */
  lemma ToggleFaqKeepsSingleOpen(s: seq<FaqItem>, i: nat, scrollHeight: nat)
    requires i < |s| && AtMostOneOpen(s)
    ensures AtMostOneOpen(ToggleFaqSpec(s, i, scrollHeight))
  {
    if Complete(s[i]) && !AnswerActive(s[i]) {
      ToggleFaqOpenIsExclusive(s, i, scrollHeight);
    }
  }

  /** Glyphs, aria values and classes stay in step with the answers. */
  lemma ToggleFaqKeepsConsistent(s: seq<FaqItem>, i: nat, scrollHeight: nat)
    requires i < |s| && AllConsistent(s)
    ensures AllConsistent(ToggleFaqSpec(s, i, scrollHeight))
  {
    var r := ToggleFaqSpec(s, i, scrollHeight);
    if Complete(s[i]) && !AnswerActive(s[i]) {
      forall j | 0 <= j < |s| ensures Consistent(r[j]) {
        if j != i {
          assert Consistent(s[j]);
          assert r[j] == ClearToggle(ClearQuestion(ClearAnswer(s[j])));
        }
      }
    }
  }

  /** From an all-closed page, toggling one item twice closes everything again
      and leaves every other item exactly as it was. */
  lemma {:induction false} ToggleFaqTwiceFromClosed(s: seq<FaqItem>, i: nat, h1: nat, h2: nat)
    requires i < |s| && AllClosed(s)
    ensures var r := ToggleFaqSpec(ToggleFaqSpec(s, i, h1), i, h2);
      AllClosed(r) && forall j :: 0 <= j < |s| && j != i ==> r[j] == s[j]
  {
    if Complete(s[i]) {
      var r1 := ToggleFaqSpec(s, i, h1);
      assert AccordionClosed(s[i]);
      forall j | 0 <= j < |s| && j != i ensures r1[j] == s[j] {
        assert AccordionClosed(s[j]);
        assert ClearToggle(ClearQuestion(ClearAnswer(s[j]))) == s[j];
      }
      assert r1[i] == OpenItem(s[i], h1);
      var r2 := ToggleFaqSpec(r1, i, h2);
      assert r2 == r1[i := CloseItem(r1[i])];
      forall j | 0 <= j < |s| ensures AccordionClosed(r2[j]) {
        if j != i { assert r2[j] == s[j]; assert AccordionClosed(s[j]); }
      }
    }
  }

  /** Toggling an item twice gives it back its open or closed state, its
      question's class and `aria-expanded`, and its toggle, on any page. */
  lemma ToggleFaqTwiceRestoresItem(s: seq<FaqItem>, i: nat, h1: nat, h2: nat)
    requires i < |s| && Complete(s[i]) && Consistent(s[i])
    ensures var r := ToggleFaqSpec(ToggleFaqSpec(s, i, h1), i, h2);
      AnswerActive(r[i]) == AnswerActive(s[i]) && r[i].question == s[i].question && r[i].toggle == s[i].toggle
  {
  }

  // ----- The imperative handler -----

  /** `document.querySelectorAll('.faq-answer.active').forEach(...)`. */
  method ClearActiveAnswers(items: array<FaqItem>)
    modifies items
    ensures forall j :: 0 <= j < items.Length ==> items[j] == ClearAnswer(old(items[j]))
  {
    var j := 0;
    while j < items.Length
      invariant 0 <= j <= items.Length
      invariant forall k :: 0 <= k < j ==> items[k] == ClearAnswer(old(items[k]))
      invariant forall k :: j <= k < items.Length ==> items[k] == old(items[k])
    {
      var it := items[j];
      if it.answer.Some? && it.answer.value.active {
        var a := it.answer.value;
        items[j] := it.(answer := Some(a.(maxHeight := Zero, overflowHidden := true, active := false)));
      }
      j := j + 1;
    }
  }

  /** `document.querySelectorAll('.faq-question.active').forEach(...)`. */
  method ClearActiveQuestions(items: array<FaqItem>)
    modifies items
    ensures forall j :: 0 <= j < items.Length ==> items[j] == ClearQuestion(old(items[j]))
  {
    var j := 0;
    while j < items.Length
      invariant 0 <= j <= items.Length
      invariant forall k :: 0 <= k < j ==> items[k] == ClearQuestion(old(items[k]))
      invariant forall k :: j <= k < items.Length ==> items[k] == old(items[k])
    {
      var it := items[j];
      if it.question.active {
        items[j] := it.(question := it.question.(active := false, ariaExpanded := false));
      }
      j := j + 1;
    }
  }

  /** `document.querySelectorAll('.faq-toggle.active').forEach(...)`. */
  method ClearActiveToggles(items: array<FaqItem>)
    modifies items
    ensures forall j :: 0 <= j < items.Length ==> items[j] == ClearToggle(old(items[j]))
  {
    var j := 0;
    while j < items.Length
      invariant 0 <= j <= items.Length
      invariant forall k :: 0 <= k < j ==> items[k] == ClearToggle(old(items[k]))
      invariant forall k :: j <= k < items.Length ==> items[k] == old(items[k])
    {
      var it := items[j];
      if it.toggle.Some? && it.toggle.value.active {
        items[j] := it.(toggle := Some(it.toggle.value.(glyph := Plus, active := false)));
      }
      j := j + 1;
    }
  }

  /** `toggleFaq(question)` for the question of item `i`; the click handler of
      js/main.js:249-254 calls exactly this. */
  method ToggleFaq(items: array<FaqItem>, i: nat, scrollHeight: nat)
    requires i < items.Length
    modifies items
    ensures items[..] == ToggleFaqSpec(old(items[..]), i, scrollHeight)
  {
    var it := items[i];
    if it.answer.None? || it.toggle.None? {
      return;
    }
    if it.answer.value.active {
      var a := it.answer.value;
      items[i] := it.(answer := Some(a.(maxHeight := Zero, overflowHidden := true, active := false)),
                      question := it.question.(active := false, ariaExpanded := false),
                      toggle := Some(it.toggle.value.(glyph := Plus, active := false)));
    } else {
      ghost var s := items[..];
      ClearActiveAnswers(items);
      ClearActiveQuestions(items);
      ClearActiveToggles(items);
      var cur := items[i];
      var a := cur.answer.value.(maxHeight := NoneH, overflowHidden := false, heightAuto := true);
      a := a.(maxHeight := Px(scrollHeight), active := true);
      items[i] := cur.(answer := Some(a),
                       question := cur.question.(active := true, ariaExpanded := true),
                       toggle := Some(cur.toggle.value.(glyph := Minus, active := true)));
      assert items[..] == ClearAll(s)[i := OpenItem(s[i], scrollHeight)];
    }
  }

  /** The keydown binding of js/main.js:257-263: Enter or Space toggles, any
      other key does nothing. */
  method KeyDown(items: array<FaqItem>, i: nat, key: string, scrollHeight: nat)
    requires i < items.Length
    modifies items
    ensures items[..] == if IsActivationKey(key) then ToggleFaqSpec(old(items[..]), i, scrollHeight)
                         else old(items[..])
  {
    if key == "Enter" || key == " " {
      ToggleFaq(items, i, scrollHeight);
    }
  }

  /** The timer callback of js/main.js:104-109, run as a separate step: if the
      answer is still open its height limit is lifted, otherwise nothing
      happens. */
  method RelaxHeight(items: array<FaqItem>, i: nat)
    requires i < items.Length
    modifies items
    ensures items[..] == old(items[..])[i := Relax(old(items[i]))]
    ensures AtMostOneOpen(old(items[..])) ==> AtMostOneOpen(items[..])
    ensures AllConsistent(old(items[..])) ==> AllConsistent(items[..])
  {
    var it := items[i];
    if it.answer.Some? && it.answer.value.active {
      items[i] := it.(answer := Some(it.answer.value.(maxHeight := NoneH, overflowHidden := false)));
    }
    RelaxKeepsInvariants(old(items[..]), i);
  }

  /** What the timer callback does to its item: an open answer loses its
      height limit and shows its overflow; nothing else changes. */
  function Relax(it: FaqItem): (r: FaqItem)
    ensures AnswerActive(r) == AnswerActive(it) && r.answer.Some? == it.answer.Some?
    ensures r.question == it.question && r.toggle == it.toggle && SameContent(r, it)
    ensures AnswerActive(it) ==> r.answer.value.maxHeight == NoneH && !r.answer.value.overflowHidden &&
                                 r.answer.value.heightAuto == it.answer.value.heightAuto
    ensures !AnswerActive(it) ==> r == it
  {
    if AnswerActive(it) then it.(answer := Some(it.answer.value.(maxHeight := NoneH, overflowHidden := false)))
    else it
  }

  /** The relaxation step never opens, closes or re-labels anything, so both
      page invariants survive it. */
  lemma RelaxKeepsInvariants(s: seq<FaqItem>, i: nat)
    requires i < |s|
    ensures var r := s[i := Relax(s[i])];
      (AtMostOneOpen(s) ==> AtMostOneOpen(r)) && (AllConsistent(s) ==> AllConsistent(r))
  {
  }

  // ----- Initial state at page load -----

  /** `document.querySelector('.faq-answer.active')`: the first item, in page
      order, whose answer is active. */
  function FirstActiveAnswer(s: seq<FaqItem>): (r: Option<nat>)
    ensures r.Some? ==> r.value < |s| && AnswerActive(s[r.value]) &&
                        forall j :: 0 <= j < r.value ==> !AnswerActive(s[j])
    ensures r.None? ==> forall j :: 0 <= j < |s| ==> !AnswerActive(s[j])
  {
    if s == [] then None
    else if AnswerActive(s[0]) then Some(0)
    else match FirstActiveAnswer(s[1..])
      case None => None
      case Some(k) => Some(k + 1)
  }

  /** js/main.js:271-277: an answer already open at page load has its height
      limit lifted (`max-height: none`, `overflow: visible`, `height: auto`);
      only the first such answer is touched. */
  method InitializeActiveAnswer(items: array<FaqItem>)
    modifies items
    ensures var first := FirstActiveAnswer(old(items[..]));
      forall j :: 0 <= j < items.Length ==>
        items[j] == if first == Some(j)
                    then old(items[j]).(answer := Some(old(items[j]).answer.value.(maxHeight := NoneH, overflowHidden := false, heightAuto := true)))
                    else old(items[j])
  {
    var first := FirstActiveAnswer(items[..]);
    if first.Some? {
      var k := first.value;
      var it := items[k];
      items[k] := it.(answer := Some(it.answer.value.(maxHeight := NoneH, overflowHidden := false, heightAuto := true)));
    }
  }
}
