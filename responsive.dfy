/** The second accordion, the click handler js/responsive.js binds to every
    `.faq-question`, and its keydown delegation.  It is keyed on the
    question's `active` class, resets every other item whatever its state,
    and never touches heights or the toggle's class.  Its lookups are not
    guarded: an item without an answer or toggle makes a statement throw a
    TypeError, which ends the handler where it stands. */
module ResponsiveAccordion {
  import opened Faq

  /** The expanded glyph js/responsive.js:36 writes.  The file holds the UTF-8
      bytes of U+2212 decoded as Windows-1252, so the text set is the three
      characters U+00E2 U+02C6 U+2019, not the minus sign js/main.js uses. */
  const ResponsiveMinus: string := "\U{00E2}\U{02C6}\U{2019}"

  /** js/responsive.js:20-23 applied to an item other than the clicked one,
      as far as the statements get: with no answer, line 21 throws right after
      line 20; with no toggle, line 22 throws right after line 21. */
  function ResetOther(it: FaqItem): (r: FaqItem)
    ensures SameLayout(r, it) && !r.question.active && !AnswerActive(r)
    ensures Complete(it) ==> Reset(r)
    ensures !Complete(it) ==> r.question.ariaExpanded == it.question.ariaExpanded && r.toggle == it.toggle
  {
    var q := it.(question := it.question.(active := false));
    if q.answer.None? then q
    else
      var a := q.(answer := Some(q.answer.value.(active := false)));
      if a.toggle.None? then a
      else a.(toggle := Some(a.toggle.value.(glyph := Plus)), question := a.question.(ariaExpanded := false))
  }

  /** js/responsive.js:28-38 applied to the clicked item, opening it when
      `open` holds and closing it otherwise, as far as the statements get. */
  function SetCurrent(it: FaqItem, open: bool): (r: FaqItem)
    ensures SameLayout(r, it) && r.question.active == open && (r.answer.Some? ==> r.answer.value.active == open)
    ensures Complete(it) ==> r.question.ariaExpanded == open &&
                             r.toggle.value.glyph == if open then ResponsiveMinus else Plus
    ensures !Complete(it) ==> r.question.ariaExpanded == it.question.ariaExpanded && r.toggle == it.toggle
  {
    var q := it.(question := it.question.(active := open));
    if q.answer.None? then q
    else
      var a := q.(answer := Some(q.answer.value.(active := open)));
      if a.toggle.None? then a
      else a.(toggle := Some(a.toggle.value.(glyph := if open then ResponsiveMinus else Plus)),
              question := a.question.(ariaExpanded := open))
  }

  /** The first item at or after `from`, other than `i`, that lacks its answer
      or toggle: the one the reset loop throws on. */
  function FirstBrokenFrom(s: seq<FaqItem>, i: nat, from: nat): (r: Option<nat>)
    requires from <= |s|
    ensures r.Some? ==> from <= r.value < |s| && r.value != i && !Complete(s[r.value]) &&
                        forall j :: from <= j < r.value && j != i ==> Complete(s[j])
    ensures r.None? ==> forall j :: from <= j < |s| && j != i ==> Complete(s[j])
    decreases |s| - from
  {
    if from == |s| then None
    else if from != i && !Complete(s[from]) then Some(from)
    else FirstBrokenFrom(s, i, from + 1)
  }

  function FirstBroken(s: seq<FaqItem>, i: nat): Option<nat> {
    FirstBrokenFrom(s, i, 0)
  }

  /** The items after a click, and whether the handler ran to its end. */
  datatype ClickResult = ClickResult(items: seq<FaqItem>, completed: bool)

  /** The whole effect of a click on the question of item `i`. */
  function ClickSpec(s: seq<FaqItem>, i: nat): (r: ClickResult)
    requires i < |s|
    ensures |r.items| == |s|
  {
    var wasActive := s[i].question.active;
    match FirstBroken(s, i)
    case Some(b) =>
      ClickResult(seq(|s|, j requires 0 <= j < |s| => if j <= b && j != i then ResetOther(s[j]) else s[j]), false)
    case None =>
      var others := seq(|s|, j requires 0 <= j < |s| => if j != i then ResetOther(s[j]) else s[j]);
      ClickResult(others[i := SetCurrent(s[i], !wasActive)], Complete(s[i]))
  }

  // ----- The imperative handler -----

  /** The click handler of js/responsive.js:10-39 for the question of item `i`. */
  method Click(items: array<FaqItem>, i: nat) returns (completed: bool)
    requires i < items.Length
    modifies items
    ensures ClickSpec(old(items[..]), i) == ClickResult(items[..], completed)
  {
    var isActive := items[i].question.active;
    var j := 0;
    var threw := false;
    while j < items.Length && !threw
      invariant 0 <= j <= items.Length
      invariant forall k :: 0 <= k < j && k != i ==> items[k] == ResetOther(old(items[k]))
      invariant forall k :: j <= k < items.Length ==> items[k] == old(items[k])
      invariant items[i] == old(items[i])
      invariant !threw ==> forall k :: 0 <= k < j && k != i ==> Complete(old(items[k]))
      invariant threw ==> 0 < j && j - 1 != i && !Complete(old(items[j - 1])) &&
                          forall k :: 0 <= k < j - 1 && k != i ==> Complete(old(items[k]))
    {
      if j != i {
        var other := items[j];
        other := other.(question := other.question.(active := false));
        if other.answer.None? {
          items[j] := other;
          threw := true;
        } else {
          other := other.(answer := Some(other.answer.value.(active := false)));
          if other.toggle.None? {
            items[j] := other;
            threw := true;
          } else {
            other := other.(toggle := Some(other.toggle.value.(glyph := Plus)));
            other := other.(question := other.question.(ariaExpanded := false));
            items[j] := other;
          }
        }
      }
      j := j + 1;
    }
    ghost var s := old(items[..]);
    if threw {
      var b := FirstBroken(s, i);
      assert b == Some(j - 1);
      assert items[..] == ClickSpec(s, i).items;
      return false;
    }
    assert FirstBroken(s, i) == None;
    var cur := items[i];
    var open := !isActive;
    cur := cur.(question := cur.question.(active := open));
    completed := false;
    if cur.answer.Some? {
      cur := cur.(answer := Some(cur.answer.value.(active := open)));
      if cur.toggle.Some? {
        cur := cur.(toggle := Some(cur.toggle.value.(glyph := if open then ResponsiveMinus else Plus)));
        cur := cur.(question := cur.question.(ariaExpanded := open));
        completed := true;
      }
    }
    items[i] := cur;
    assert items[..] == ClickSpec(s, i).items;
  }

  /** The keydown handler of js/responsive.js:42-47: Enter or Space clicks the
      question, any other key does nothing. */
  method KeyDown(items: array<FaqItem>, i: nat, key: string)
    requires i < items.Length
    modifies items
    ensures items[..] == if IsActivationKey(key) then ClickSpec(old(items[..]), i).items else old(items[..])
  {
    if key == "Enter" || key == " " {
      var _ := Click(items, i);
    }
  }

  // ----- Properties -----

  predicate AllComplete(s: seq<FaqItem>) {
    forall j :: 0 <= j < |s| ==> Complete(s[j])
  }

  /** The reset state a click leaves every other item in. */
  predicate Reset(it: FaqItem) {
    !it.question.active && !it.question.ariaExpanded && !AnswerActive(it) &&
    it.toggle.Some? && it.toggle.value.glyph == Plus
  }

  /** The fields the handler never writes: the answer's styles, the toggle's
      class, which children exist, the texts and the search state. */
  predicate SameLayout(a: FaqItem, b: FaqItem) {
    a.answer.Some? == b.answer.Some? && a.toggle.Some? == b.toggle.Some? &&
    (a.answer.Some? ==> a.answer.value.maxHeight == b.answer.value.maxHeight &&
                        a.answer.value.overflowHidden == b.answer.value.overflowHidden &&
                        a.answer.value.heightAuto == b.answer.value.heightAuto) &&
    (a.toggle.Some? ==> a.toggle.value.active == b.toggle.value.active) &&
    SameContent(a, b)
  }

  /** The handler runs to its end exactly when every item has both children. */
  lemma ClickCompletesIffAllComplete(s: seq<FaqItem>, i: nat)
    requires i < |s|
    ensures ClickSpec(s, i).completed <==> AllComplete(s)
  {
    assert Complete(s[i]) && FirstBroken(s, i).None? ==> AllComplete(s);
  }

  /** A click resets every other item, whatever its state was. */
  lemma ClickResetsOthers(s: seq<FaqItem>, i: nat)
    requires i < |s| && forall j :: 0 <= j < |s| && j != i ==> Complete(s[j])
    ensures var r := ClickSpec(s, i).items;
      forall j :: 0 <= j < |s| && j != i ==> Reset(r[j])
  {
    assert FirstBroken(s, i) == None;
  }

  /** A click on an open question closes it, so that every item ends closed. */
  lemma ClickOnActiveClosesAll(s: seq<FaqItem>, i: nat)
    requires i < |s| && AllComplete(s) && s[i].question.active
    ensures var r := ClickSpec(s, i).items;
      forall j :: 0 <= j < |s| ==> Reset(r[j])
  {
    assert FirstBroken(s, i) == None;
  }

  /** A click on a closed question opens that item and only that one. */
  lemma ClickOnInactiveOpensOnlyIt(s: seq<FaqItem>, i: nat)
    requires i < |s| && AllComplete(s) && !s[i].question.active
    ensures var r := ClickSpec(s, i).items;
      r[i].question.active && r[i].question.ariaExpanded && AnswerActive(r[i]) &&
      r[i].toggle.value.glyph == ResponsiveMinus &&
      forall j :: 0 <= j < |s| && j != i ==> Reset(r[j])
  {
    assert FirstBroken(s, i) == None;
  }

  /** After a click, question and answer classes agree on every item, and at
      most one item is open. */
  lemma ClickKeepsSingleOpen(s: seq<FaqItem>, i: nat)
    requires i < |s| && AllComplete(s)
    ensures var r := ClickSpec(s, i).items;
      AtMostOneOpen(r) && forall j :: 0 <= j < |s| ==> r[j].question.active == AnswerActive(r[j])
  {
    ClickResetsOthers(s, i);
  }

  /** No click changes heights, overflow, the toggle's class or the texts,
      whether it completes or throws. */
  lemma ClickNeverTouchesLayout(s: seq<FaqItem>, i: nat)
    requires i < |s|
    ensures var r := ClickSpec(s, i).items;
      forall j :: 0 <= j < |s| ==> SameLayout(r[j], s[j])
  {
  }

  /** When another item lacks a child the handler throws there: the clicked
      item and everything after the broken one are left as they were. */
  lemma ClickAbortStopsAtBrokenItem(s: seq<FaqItem>, i: nat, b: nat)
    requires i < |s| && FirstBroken(s, i) == Some(b)
    ensures var r := ClickSpec(s, i);
      !r.completed && r.items[i] == s[i] &&
      forall j :: b < j < |s| ==> r.items[j] == s[j]
  {
  }
}
