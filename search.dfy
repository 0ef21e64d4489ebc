/** The FAQ search filter of js/main.js: `performSearch` with the banner
    helpers `showSearchResults` and `hideSearchResults`.  The term is
    lowercased and trimmed; a term of at least two UTF-16 code units shows and
    highlights exactly the items whose lowercased text contains it, and a
    "no results" banner appears when none does. */
module Search {
  import opened Faq

  /** What the results banner displays: nothing, or the no-results message for a term. */
  datatype Banner = Hidden | NoResults(term: string)

  // ----- Lowercasing (ASCII) -----

  predicate IsUpper(c: char) {
    'A' <= c <= 'Z'
  }

  predicate NoUpper(s: string) {
    forall k :: 0 <= k < |s| ==> !IsUpper(s[k])
  }

  function LowerChar(c: char): (r: char)
    ensures !IsUpper(r)
    ensures IsUpper(c) ==> r as int == c as int + 32
    ensures !IsUpper(c) ==> r == c
  {
    if IsUpper(c) then (c as int + 32) as char else c
  }

  function UpperChar(c: char): (r: char)
    ensures 'a' <= c <= 'z' ==> IsUpper(r) && r as int == c as int - 32
    ensures !('a' <= c <= 'z') ==> r == c
  {
    if 'a' <= c <= 'z' then (c as int - 32) as char else c
  }

  /** `toLowerCase()`, on the ASCII letters. */
  function Lower(s: string): (r: string)
    ensures |r| == |s| && NoUpper(r)
    ensures forall k :: 0 <= k < |s| ==> r[k] == LowerChar(s[k])
  {
    seq(|s|, k requires 0 <= k < |s| => LowerChar(s[k]))
  }

  /** `toUpperCase()`, on the ASCII letters; used only to state case-insensitivity. */
  function Upper(s: string): string {
    seq(|s|, k requires 0 <= k < |s| => UpperChar(s[k]))
  }

  // ----- Trimming -----

  /** The characters `String.prototype.trim` strips: ECMAScript WhiteSpace
      (TAB, VT, FF, SPACE, NBSP, ZWNBSP and the Zs space separators) and
      LineTerminator (LF, CR, LS, PS). */
  predicate IsJsWhitespace(c: char) {
    c == '\t' || c == '\n' || c == '\U{000B}' || c == '\U{000C}' || c == '\r' || c == ' ' ||
    c == '\U{00A0}' || c == '\U{1680}' || ('\U{2000}' <= c <= '\U{200A}') ||
    c == '\U{2028}' || c == '\U{2029}' || c == '\U{202F}' || c == '\U{205F}' ||
    c == '\U{3000}' || c == '\U{FEFF}'
  }

  /** Every character `trim` strips is a single UTF-16 unit and no letter, so
      trimming never meets what lowercasing changes. */
  lemma JsWhitespaceIsBmpNonLetter(c: char)
    ensures IsJsWhitespace(c) ==> c <= '\U{FEFF}' && !IsUpper(c) && !('a' <= c <= 'z')
  {
  }

  // ----- Length -----

  /** `length` of a JavaScript string: its UTF-16 code units, so a character
      above U+FFFF (a surrogate pair) counts two. */
  function JsLength(s: string): (r: nat)
    ensures |s| <= r <= 2 * |s|
    ensures r == |s| <==> forall k :: 0 <= k < |s| ==> s[k] <= '\U{FFFF}'
  {
    if s == [] then 0
    else
      var rest := JsLength(s[1..]);
      assert forall k :: 1 <= k < |s| ==> s[k] == s[1..][k - 1];
      (if s[0] > '\U{FFFF}' then 2 else 1) + rest
  }

  function TrimStart(s: string): (r: string)
    ensures |r| <= |s| && r == s[|s| - |r|..]
    ensures forall k :: 0 <= k < |s| - |r| ==> IsJsWhitespace(s[k])
    ensures r != [] ==> !IsJsWhitespace(r[0])
  {
    if s != [] && IsJsWhitespace(s[0]) then
      var r := TrimStart(s[1..]);
      assert forall k :: 1 <= k < |s| - |r| ==> s[k] == s[1..][k - 1];
      r
    else s
  }

  function TrimEnd(s: string): (r: string)
    ensures |r| <= |s| && r == s[..|r|]
    ensures forall k :: |r| <= k < |s| ==> IsJsWhitespace(s[k])
    ensures r != [] ==> !IsJsWhitespace(r[|r| - 1])
  {
    if s != [] && IsJsWhitespace(s[|s| - 1]) then
      var r := TrimEnd(s[..|s| - 1]);
      assert forall k :: |r| <= k < |s| - 1 ==> s[k] == s[..|s| - 1][k];
      r
    else s
  }

  /** `r` neither starts nor ends with whitespace. */
  predicate NoOuterWhitespace(r: string) {
    r != [] ==> !IsJsWhitespace(r[0]) && !IsJsWhitespace(r[|r| - 1])
  }

  /** `r` is the part of `s` at position `p`, with only whitespace before and after it. */
  predicate TrimmedAt(s: string, r: string, p: nat) {
    p + |r| <= |s| && r == s[p..p + |r|] &&
    (forall k :: 0 <= k < p ==> IsJsWhitespace(s[k])) &&
    (forall k :: p + |r| <= k < |s| ==> IsJsWhitespace(s[k]))
  }

  /** `trim()`: the longest middle part that neither starts nor ends with whitespace. */
  function Trim(s: string): (r: string)
    ensures |r| <= |s|
    ensures exists p: nat :: TrimmedAt(s, r, p)
    ensures NoOuterWhitespace(r)
    ensures (forall k :: 0 <= k < |s| ==> IsJsWhitespace(s[k])) <==> r == []
  {
    var a := TrimStart(s);
    var r := TrimEnd(a);
    TrimmedBetweenWhitespace(s, a, r);
    r
  }

  /** A prefix `r` of a suffix `a` of `s`, cut where whitespace ends and
      starts again, is `s` with its surrounding whitespace removed. */
  lemma TrimmedBetweenWhitespace(s: string, a: string, r: string)
    requires |a| <= |s| && a == s[|s| - |a|..] && forall k :: 0 <= k < |s| - |a| ==> IsJsWhitespace(s[k])
    requires a != [] ==> !IsJsWhitespace(a[0])
    requires |r| <= |a| && r == a[..|r|] && forall k :: |r| <= k < |a| ==> IsJsWhitespace(a[k])
    requires r != [] ==> !IsJsWhitespace(r[|r| - 1])
    ensures TrimmedAt(s, r, |s| - |a|) && NoOuterWhitespace(r)
    ensures (forall k :: 0 <= k < |s| ==> IsJsWhitespace(s[k])) <==> r == []
  {
    var p := |s| - |a|;
    assert r == s[p..p + |r|];
    forall k | p + |r| <= k < |s| ensures IsJsWhitespace(s[k]) {
      assert s[k] == a[k - p];
    }
    if r != [] {
      assert r[0] == a[0] == s[p];
    }
  }

  /** `searchTerm.toLowerCase().trim()`. */
  function Normalize(searchTerm: string): (t: string)
    ensures NoUpper(t)
    ensures exists p: nat :: TrimmedAt(Lower(searchTerm), t, p)
    ensures NoOuterWhitespace(t)
  {
    var l := Lower(searchTerm);
    var t := Trim(l);
    TrimKeepsNoUpper(l);
    t
  }

  lemma TrimKeepsNoUpper(l: string)
    requires NoUpper(l)
    ensures NoUpper(Trim(l))
  {
    var t := Trim(l);
    var p: nat :| TrimmedAt(l, t, p);
    forall k | 0 <= k < |t| ensures !IsUpper(t[k]) { assert t[k] == l[p + k]; }
  }

  // ----- Substring test -----

  /** `term` occurs in `text` starting at position `k`. */
  predicate OccursAt(text: string, term: string, k: nat) {
    k + |term| <= |text| && text[k..k + |term|] == term
  }

  lemma OccursAtShift(text: string, term: string)
    requires text != []
    ensures forall k: nat :: OccursAt(text[1..], term, k) <==> OccursAt(text, term, k + 1)
  {
    forall k: nat ensures OccursAt(text[1..], term, k) <==> OccursAt(text, term, k + 1) {
      if k + |term| <= |text[1..]| {
        assert text[1..][k..k + |term|] == text[k + 1..k + 1 + |term|];
      }
    }
  }

  /** `text.includes(term)`: some position of `text` starts an occurrence of `term`. */
  function Contains(text: string, term: string): (b: bool)
    ensures b <==> exists k: nat :: OccursAt(text, term, k)
    decreases |text|
  {
    if |term| > |text| then false
    else if text[..|term|] == term then assert OccursAt(text, term, 0); true
    else
      OccursAtShift(text, term);
      assert forall k: nat :: OccursAt(text, term, k) ==> k > 0;
      assert forall k: nat :: k > 0 && OccursAt(text, term, k) ==> OccursAt(text[1..], term, k - 1);
      Contains(text[1..], term)
  }

  // ----- The text an item is searched by -----

  /** `listText` after the loop of js/main.js:166-168: each list entry,
      lowercased and followed by one space. */
  function ListText(entries: seq<string>): (r: string)
    ensures NoUpper(r)
  {
    if entries == [] then ""
    else
      var prefix := ListText(entries[..|entries| - 1]);
      var last := Lower(entries[|entries| - 1]);
      var r := prefix + last + " ";
      assert forall k :: 0 <= k < |r| ==> r[k] == (if k < |prefix| then prefix[k] else if k < |prefix| + |last| then last[k - |prefix|] else ' ');
      r
  }

  /** `allText`: question text, a space, intro text, a space, then the list
      text, each lowercased; a missing question or intro counts as "". */
  function JoinedText(it: FaqItem): (r: string)
    ensures NoUpper(r)
  {
    var q := Lower(it.questionText.GetOr(""));
    var a := Lower(it.answerIntro.GetOr(""));
    var l := ListText(it.listItems);
    var r := q + " " + a + " " + l;
    assert forall k :: 0 <= k < |r| ==>
      r[k] == (if k < |q| then q[k] else if k == |q| then ' '
               else if k < |q| + 1 + |a| then a[k - |q| - 1] else if k == |q| + 1 + |a| then ' '
               else l[k - |q| - |a| - 2]);
    r
  }

  predicate Matches(it: FaqItem, term: string) {
    Contains(JoinedText(it), term)
  }

  predicate AnyMatch(s: seq<FaqItem>, term: string) {
    exists j :: 0 <= j < |s| && Matches(s[j], term)
  }

  // ----- The banner -----

  /** `showSearchResults(foundResults, searchTerm)` (js/main.js:192-224). */
  function ShowSearchResults(foundResults: bool, searchTerm: string): (b: Banner)
    ensures b.NoResults? <==> !foundResults
    ensures b.NoResults? ==> b.term == searchTerm
  {
    if !foundResults then NoResults(searchTerm) else Hidden
  }

  /** `hideSearchResults()` (js/main.js:226-231). */
  function HideSearchResults(): (b: Banner)
    ensures !b.NoResults?
  {
    Hidden
  }

  // ----- The filter -----

  /** What the filter does to one item for a term of two or more UTF-16 code units. */
  function SearchItem(it: FaqItem, term: string): (r: FaqItem)
    ensures SameAccordion(r, it) && r.display != DisplayUnset
  {
    if Matches(it, term) then it.(display := DisplayBlock, highlighted := true)
    else it.(display := DisplayNone, highlighted := false)
  }

  /** What the filter does to one item for a shorter term. */
  function ResetItem(it: FaqItem): (r: FaqItem)
    ensures SameAccordion(r, it) && r.display != DisplayUnset
  {
    it.(display := DisplayBlock, highlighted := false)
  }

  /** The items after `performSearch(searchTerm, items)`. */
  function SearchItems(s: seq<FaqItem>, searchTerm: string): (r: seq<FaqItem>)
    ensures |r| == |s|
    ensures forall j :: 0 <= j < |s| ==> SameAccordion(r[j], s[j]) && r[j].display != DisplayUnset
  {
    var t := Normalize(searchTerm);
    if JsLength(t) >= 2 then FilterAll(s, t) else ResetAll(s)
  }

  /** Every item filtered by `term`: shown and highlighted when its joined
      text contains the term, hidden and not highlighted otherwise. */
  function FilterAll(s: seq<FaqItem>, term: string): (r: seq<FaqItem>)
    ensures |r| == |s| && forall j :: 0 <= j < |s| ==> r[j] == SearchItem(s[j], term)
    ensures forall j :: 0 <= j < |s| ==>
      (SameAccordion(r[j], s[j]) && r[j].highlighted == Matches(s[j], term) &&
       r[j].display == (if Matches(s[j], term) then DisplayBlock else DisplayNone))
  {
    seq(|s|, j requires 0 <= j < |s| => SearchItem(s[j], term))
  }

  /** Every item reset: shown and not highlighted. */
  function ResetAll(s: seq<FaqItem>): (r: seq<FaqItem>)
    ensures |r| == |s| && forall j :: 0 <= j < |s| ==> r[j] == ResetItem(s[j])
    ensures forall j :: 0 <= j < |s| ==>
      (SameAccordion(r[j], s[j]) && r[j].display == DisplayBlock && !r[j].highlighted)
  {
    seq(|s|, j requires 0 <= j < |s| => ResetItem(s[j]))
  }

  /** The banner after `performSearch(searchTerm, items)`. */
  function SearchBanner(s: seq<FaqItem>, searchTerm: string): (b: Banner)
    ensures var t := Normalize(searchTerm);
      b.NoResults? <==> JsLength(t) >= 2 && !AnyMatch(s, t)
    ensures b.NoResults? ==> b.term == Normalize(searchTerm)
  {
    var t := Normalize(searchTerm);
    if JsLength(t) >= 2 then ShowSearchResults(AnyMatch(s, t), t) else HideSearchResults()
  }

  /** The `listItems.forEach` loop of js/main.js:164-168. */
  method CollectListText(entries: seq<string>) returns (listText: string)
    ensures listText == ListText(entries)
  {
    listText := "";
    var m := 0;
    while m < |entries|
      invariant 0 <= m <= |entries|
      invariant listText == ListText(entries[..m])
    {
      assert entries[..m + 1][..m] == entries[..m];
      listText := listText + Lower(entries[m]) + " ";
      m := m + 1;
    }
    assert entries[..m] == entries;
  }

  /** The body of the `faqItems.forEach` of js/main.js:160-179 for one item:
      whether it matched, and the item with its new display and highlight. */
  method SearchOne(item: FaqItem, term: string) returns (matched: bool, updated: FaqItem)
    ensures matched == Matches(item, term)
    ensures updated == SearchItem(item, term)
  {
    var questionText := Lower(item.questionText.GetOr(""));
    var answerText := Lower(item.answerIntro.GetOr(""));
    var listText := CollectListText(item.listItems);
    var allText := questionText + " " + answerText + " " + listText;
    assert allText == JoinedText(item);
    if Contains(allText, term) {
      updated := item.(display := DisplayBlock, highlighted := true);
      matched := true;
    } else {
      updated := item.(display := DisplayNone, highlighted := false);
      matched := false;
    }
  }

  /** The branch of js/main.js:157-182 for a term of two or more UTF-16 code units:
      every item is filtered, and whether any matched is returned. */
  method FilterItems(items: array<FaqItem>, term: string) returns (foundResults: bool)
    modifies items
    ensures items[..] == FilterAll(old(items[..]), term)
    ensures foundResults == AnyMatch(old(items[..]), term)
  {
    foundResults := false;
    var j := 0;
    while j < items.Length
      invariant 0 <= j <= items.Length
      invariant forall k :: 0 <= k < j ==> items[k] == SearchItem(old(items[k]), term)
      invariant forall k :: j <= k < items.Length ==> items[k] == old(items[k])
      invariant foundResults <==> exists k :: 0 <= k < j && Matches(old(items[k]), term)
    {
      var matched, updated := SearchOne(items[j], term);
      items[j] := updated;
      foundResults := foundResults || matched;
      j := j + 1;
    }
    assert items[..] == FilterAll(old(items[..]), term);
  }

  /** The branch of js/main.js:183-188 for a shorter term: every item shown, none highlighted. */
  method ShowAllItems(items: array<FaqItem>)
    modifies items
    ensures items[..] == ResetAll(old(items[..]))
  {
    var j := 0;
    while j < items.Length
      invariant 0 <= j <= items.Length
      invariant forall k :: 0 <= k < j ==> items[k] == ResetItem(old(items[k]))
      invariant forall k :: j <= k < items.Length ==> items[k] == old(items[k])
    {
      items[j] := items[j].(display := DisplayBlock, highlighted := false);
      j := j + 1;
    }
    assert items[..] == ResetAll(old(items[..]));
  }

  /** `performSearch(searchTerm, faqItems)`: the items are updated in place and
      the banner's new state is returned. */
  method PerformSearch(items: array<FaqItem>, searchTerm: string) returns (banner: Banner)
    modifies items
    ensures items[..] == SearchItems(old(items[..]), searchTerm)
    ensures banner == SearchBanner(old(items[..]), searchTerm)
  {
    var term := Normalize(searchTerm);
    if JsLength(term) >= 2 {
      var foundResults := FilterItems(items, term);
      banner := ShowSearchResults(foundResults, term);
    } else {
      ShowAllItems(items);
      banner := HideSearchResults();
    }
  }

  // ----- Properties -----

  /** A term shorter than two UTF-16 code units after trimming is a full reset. */
  lemma ShortTermShowsAll(s: seq<FaqItem>, searchTerm: string)
    requires JsLength(Normalize(searchTerm)) < 2
    ensures var r := SearchItems(s, searchTerm);
      forall j :: 0 <= j < |s| ==> r[j].display == DisplayBlock && !r[j].highlighted
    ensures SearchBanner(s, searchTerm) == Hidden
  {
  }

  /** A longer term shows and highlights exactly the items whose joined,
      lowercased text has it as a substring, and hides the rest. */
  lemma LongTermFilters(s: seq<FaqItem>, searchTerm: string, j: nat)
    requires JsLength(Normalize(searchTerm)) >= 2 && j < |s|
    ensures var r := SearchItems(s, searchTerm);
      var t := Normalize(searchTerm);
      ((exists k: nat :: OccursAt(JoinedText(s[j]), t, k)) ==> r[j].display == DisplayBlock && r[j].highlighted) &&
      (!(exists k: nat :: OccursAt(JoinedText(s[j]), t, k)) ==> r[j].display == DisplayNone && !r[j].highlighted)
  {
    SearchByLongTerm(s, searchTerm, Normalize(searchTerm));
  }

  /** With a longer term the banner shows the no-results message for the
      normalised term exactly when no item matched, and is hidden otherwise. */
  lemma BannerReportsNoMatch(s: seq<FaqItem>, searchTerm: string)
    requires JsLength(Normalize(searchTerm)) >= 2
    ensures var t := Normalize(searchTerm);
      (SearchBanner(s, searchTerm) == NoResults(t) <==> forall j :: 0 <= j < |s| ==> !Matches(s[j], t)) &&
      (SearchBanner(s, searchTerm) == Hidden <==> exists j :: 0 <= j < |s| && Matches(s[j], t))
  {
  }

  /** A term of one character above U+FFFF (an emoji, say) is two UTF-16
      units long, so it already filters the items. */
  lemma AstralCharFilters(s: seq<FaqItem>, c: char)
    requires c > '\U{FFFF}'
    ensures Normalize([c]) == [c]
    ensures SearchItems(s, [c]) == seq(|s|, j requires 0 <= j < |s| => SearchItem(s[j], [c]))
    ensures SearchBanner(s, [c]) == ShowSearchResults(AnyMatch(s, [c]), [c])
  {
    JsWhitespaceIsBmpNonLetter(c);
    assert Lower([c]) == [c];
    NormalizeOfPlainWord([c]);
    assert JsLength([c]) == 2;
  }

  lemma {:induction false} LowerOfUpper(x: string)
    ensures Lower(Upper(x)) == Lower(x)
  {
    var a, b := Lower(Upper(x)), Lower(x);
    forall k | 0 <= k < |x| ensures a[k] == b[k] {
      assert a[k] == LowerChar(UpperChar(x[k]));
    }
  }

  lemma {:induction false} LowerOfLower(x: string)
    ensures Lower(Lower(x)) == Lower(x)
  {
    var a, b := Lower(Lower(x)), Lower(x);
    forall k | 0 <= k < |x| ensures a[k] == b[k] {
      assert a[k] == LowerChar(LowerChar(x[k]));
    }
  }

  /** The search does not depend on the case of the term: upper-casing or
      lower-casing it changes neither the items nor the banner. */
  lemma SearchIgnoresCase(s: seq<FaqItem>, searchTerm: string)
    ensures SearchItems(s, Upper(searchTerm)) == SearchItems(s, searchTerm)
    ensures SearchBanner(s, Upper(searchTerm)) == SearchBanner(s, searchTerm)
    ensures SearchItems(s, Lower(searchTerm)) == SearchItems(s, searchTerm)
    ensures SearchBanner(s, Lower(searchTerm)) == SearchBanner(s, searchTerm)
  {
    LowerOfUpper(searchTerm);
    LowerOfLower(searchTerm);
  }

  /** An item with only a question text, in its initial search state. */
  function QuestionOnly(q: string): FaqItem {
    FaqItem(Question(false, false), None, None, Some(q), None, [], DisplayUnset, false)
  }

  lemma LowerOfNoUpper(x: string)
    requires NoUpper(x)
    ensures Lower(x) == x
  {
    assert forall k :: 0 <= k < |x| ==> Lower(x)[k] == x[k];
  }

  lemma NormalizeOfPlainWord(x: string)
    requires |x| > 0 && NoUpper(x) && !IsJsWhitespace(x[0]) && !IsJsWhitespace(x[|x| - 1])
    ensures Normalize(x) == x
  {
    LowerOfNoUpper(x);
    assert TrimStart(x) == x;
    assert TrimEnd(x) == x;
  }

  lemma NoOccurrence(text: string, term: string)
    requires |term| >= 2
    requires forall k :: 0 <= k < |text| - 1 ==> text[k] != term[0] || text[k + 1] != term[1]
    ensures !Contains(text, term)
  {
    forall k: nat | OccursAt(text, term, k) ensures text[k] == term[0] && text[k + 1] == term[1] {
      assert text[k..k + |term|][0] == term[0] && text[k..k + |term|][1] == term[1];
    }
  }

  lemma ExampleTexts()
    ensures JoinedText(QuestionOnly("What is covered?")) == "what is covered?  "
    ensures JoinedText(QuestionOnly("How do I file a claim?")) == "how do i file a claim?  "
  {
    assert Lower("What is covered?") == "what is covered?";
    assert Lower("How do I file a claim?") == "how do i file a claim?";
  }

  function ExampleItems(): seq<FaqItem> {
    [QuestionOnly("What is covered?"), QuestionOnly("How do I file a claim?")]
  }

  lemma CoveredLacksClaim() ensures !Contains("what is covered?  ", "claim") {
    NoOccurrence("what is covered?  ", "claim");
  }

  lemma CoveredLacksZzz() ensures !Contains("what is covered?  ", "zzz") {
    NoOccurrence("what is covered?  ", "zzz");
  }

  lemma FileClaimLacksZzz() ensures !Contains("how do i file a claim?  ", "zzz") {
    NoOccurrence("how do i file a claim?  ", "zzz");
  }

  lemma FileClaimHasClaim() ensures Contains("how do i file a claim?  ", "claim") {
    assert OccursAt("how do i file a claim?  ", "claim", 16);
  }

  lemma ExampleMatchesClaim()
    ensures !Matches(ExampleItems()[0], "claim") && Matches(ExampleItems()[1], "claim")
  {
    ExampleTexts();
    CoveredLacksClaim();
    FileClaimHasClaim();
  }

  lemma ExampleMatchesNoZzz()
    ensures !Matches(ExampleItems()[0], "zzz") && !Matches(ExampleItems()[1], "zzz")
  {
    ExampleTexts();
    CoveredLacksZzz();
    FileClaimLacksZzz();
  }

  /** A term that normalises to `t` of two or more UTF-16 units filters by `t`. */
  lemma SearchByLongTerm(s: seq<FaqItem>, searchTerm: string, t: string)
    requires Normalize(searchTerm) == t && JsLength(t) >= 2
    ensures SearchItems(s, searchTerm) == FilterAll(s, t)
    ensures SearchBanner(s, searchTerm) == ShowSearchResults(AnyMatch(s, t), t)
  {
  }

  lemma ExampleTermsAreLong()
    ensures JsLength("claim") == 5 && JsLength("zzz") == 3
  {
  }

  /** Searching "claim" over the two example items hides "What is covered?",
      shows and highlights "How do I file a claim?", and leaves the banner hidden. */
  lemma ClaimExample()
    ensures var r := SearchItems(ExampleItems(), "claim");
      r[0].display == DisplayNone && r[1].display == DisplayBlock && r[1].highlighted &&
      SearchBanner(ExampleItems(), "claim") == Hidden
  {
    NormalizeOfPlainWord("claim");
    ExampleTermsAreLong();
    SearchByLongTerm(ExampleItems(), "claim", "claim");
    ExampleMatchesClaim();
  }

  /** Searching "zzz" hides both example items and shows the no-results banner. */
  lemma NoMatchExample()
    ensures var r := SearchItems(ExampleItems(), "zzz");
      r[0].display == DisplayNone && r[1].display == DisplayNone &&
      SearchBanner(ExampleItems(), "zzz") == NoResults("zzz")
  {
    NormalizeOfPlainWord("zzz");
    ExampleTermsAreLong();
    SearchByLongTerm(ExampleItems(), "zzz", "zzz");
    NoExampleMatchesZzz();
  }

  lemma NoMatchInPair(a: FaqItem, b: FaqItem, term: string)
    requires !Matches(a, term) && !Matches(b, term)
    ensures !AnyMatch([a, b], term)
  {
  }

  lemma NoExampleMatchesZzz()
    ensures !AnyMatch(ExampleItems(), "zzz")
  {
    ExampleMatchesNoZzz();
    NoMatchInPair(ExampleItems()[0], ExampleItems()[1], "zzz");
  }

  /** Clearing the field shows both example items again and hides the banner. */
  lemma EmptyTermExample()
    ensures var r := SearchItems(ExampleItems(), "");
      r[0].display == DisplayBlock && r[1].display == DisplayBlock && SearchBanner(ExampleItems(), "") == Hidden
  {
    assert Normalize("") == "";
  }
}
