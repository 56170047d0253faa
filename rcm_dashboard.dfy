/** The decisions of the RCM dashboard page object (pages/admin2/RCMDashboardPage.ts): the
    error scan of `checkForErrorMessages`, the first-match search of `getErrorText`, the
    iframe error message and its expected wording, and the choice between the named iframe
    and a Tableau iframe in `validateRcmDashboardIframe`.

    Every Playwright probe is an input. A locator's matches are a sequence of probes, one per
    element, each holding what `isVisible()` returned (`false` when it threw, as the code's
    `.catch(() => false)` makes it) and what `textContent()` returned (`None` for `null`,
    `Some("")` when it threw, as `.catch(() => '')` makes it). */
module RcmDashboard {
  import opened Wrappers
  import opened JsString

  /** What the page reports about one matched element. */
  datatype ElementProbe = ElementProbe(visible: bool, text: Option<string>)

  /** The page as the scan sees it: the text of `body` and, per selector, its matches in
      document order. A selector that is not a key matches nothing. */
  datatype Page = Page(bodyText: Option<string>, matches: map<string, seq<ElementProbe>>)

  function Matches(page: Page, selector: string): seq<ElementProbe> {
    if selector in page.matches then page.matches[selector] else []
  }

  /** An entry of `errorElements`. */
  datatype ErrorElement = ErrorElement(selector: string, text: string)

  datatype ErrorCheck = ErrorCheck(hasError: bool, errorMessages: seq<string>,
                                   errorKeywords: seq<string>, errorElements: seq<ErrorElement>)

  const ErrorKeywords: seq<string> := ["error", "failed", "unable to load", "could not load",
    "not available", "cannot display", "connection error", "timeout", "not found", "unavailable"]

  const ErrorSelectors: seq<string> := [".error", ".alert", ".alert-danger", ".alert-error",
    ".error-message", ".message-error", "[role=\"alert\"]", ".notification-error", ".toast-error"]

  const ErrorTextSelectors: seq<string> := [".error-message", ".alert-danger", ".error", "[role=\"alert\"]"]

  const ExpectedIframeError := "The dashboard could not be loaded at this time. Please try again later."

  predicate NoDuplicates<T(==)>(s: seq<T>) {
    forall i, j :: 0 <= i < j < |s| ==> s[i] != s[j]
  }

  // ---------------------------------------------------------------- keyword scan

  /** `pageText?.toLowerCase() || ''`. */
  function LowerPageText(bodyText: Option<string>): string {
    match bodyText
    case None => ""
    case Some(t) => ToLower(t)
  }

  /** The keywords of `keywords` that occur in `text`, in list order. */
  function FoundKeywords(text: string, keywords: seq<string>): (found: seq<string>)
    ensures |found| <= |keywords|
  {
    if keywords == [] then []
    else
      var last := keywords[|keywords| - 1];
      FoundKeywords(text, keywords[..|keywords| - 1]) + (if Contains(text, last) then [last] else [])
  }

  /** A keyword is reported exactly when it is on the list and occurs in the text. */
  lemma {:induction false} FoundKeywordsMembers(text: string, keywords: seq<string>, k: string)
    ensures k in FoundKeywords(text, keywords) <==> k in keywords && Contains(text, k)
  {
    if keywords != [] {
      var init := keywords[..|keywords| - 1];
      FoundKeywordsMembers(text, init, k);
      assert keywords == init + [keywords[|keywords| - 1]];
    }
  }

  /** A list without repeats gives a report without repeats. */
  lemma {:induction false} FoundKeywordsNoDuplicates(text: string, keywords: seq<string>)
    requires NoDuplicates(keywords)
    ensures NoDuplicates(FoundKeywords(text, keywords))
  {
    if keywords != [] {
      var init := keywords[..|keywords| - 1];
      var last := keywords[|keywords| - 1];
      assert NoDuplicates(init);
      FoundKeywordsNoDuplicates(text, init);
      FoundKeywordsMembers(text, init, last);
    }
  }

  lemma ErrorKeywordsDistinct()
    ensures NoDuplicates(ErrorKeywords)
  {
  }

  /** An empty text, which is what a `null` body becomes, reports no keyword. */
  lemma {:induction false} NullTextReportsNothing(keywords: seq<string>)
    requires forall i :: 0 <= i < |keywords| ==> keywords[i] != ""
    ensures FoundKeywords(LowerPageText(None), keywords) == []
  {
    if keywords != [] {
      NullTextReportsNothing(keywords[..|keywords| - 1]);
    }
  }

  /** A page whose body text is `null` reports no keyword. */
  lemma NullBodyReportsNoKeyword(page: Page)
    requires page.bodyText.None?
    ensures ErrorReport(page).errorKeywords == []
  {
    ErrorKeywordsNonEmpty();
    NullTextReportsNothing(ErrorKeywords);
  }

  lemma ErrorKeywordsNonEmpty()
    ensures forall i :: 0 <= i < |ErrorKeywords| ==> |ErrorKeywords[i]| > 0
  {
  }

  /** `connection error` contains `error`, so finding the first also reports the second. */
  lemma ConnectionErrorReportsError(text: string)
    requires "connection error" in FoundKeywords(text, ErrorKeywords)
    ensures "error" in FoundKeywords(text, ErrorKeywords)
  {
    FoundKeywordsMembers(text, ErrorKeywords, "connection error");
    FoundKeywordsMembers(text, ErrorKeywords, "error");
    ContainsIff(text, "connection error");
    var i :| OccursAt(text, "connection error", i);
    assert text[i + 11..i + 16] == "connection error"[11..16];
    assert OccursAt(text, "error", i + 11);
    ContainsIff(text, "error");
  }

  // ---------------------------------------------------------------- error elements

  /** `text && text.trim()`: the element has text that is not all white space. */
  predicate HasText(p: ElementProbe) {
    p.text.Some? && p.text.value != "" && Trim(p.text.value) != ""
  }

  /** The entry one element contributes: its trimmed text when it is visible with text. */
  function Entry(selector: string, p: ElementProbe): (es: seq<ErrorElement>)
    ensures |es| <= 1
    ensures |es| == 1 <==> p.visible && HasText(p)
  {
    if p.visible && HasText(p) then
      [ErrorElement(selector, Trim(p.text.value))]
    else []
  }

  /** The entries collected from the matches of one selector, in index order. */
  function FromProbes(selector: string, probes: seq<ElementProbe>): (es: seq<ErrorElement>)
    ensures |es| <= |probes|
  {
    if probes == [] then []
    else FromProbes(selector, probes[..|probes| - 1]) + Entry(selector, probes[|probes| - 1])
  }

  /** The entries collected from all selectors, by selector and then by index. */
  function Collected(page: Page, selectors: seq<string>): (es: seq<ErrorElement>)
  {
    if selectors == [] then []
    else
      var s := selectors[|selectors| - 1];
      Collected(page, selectors[..|selectors| - 1]) + FromProbes(s, Matches(page, s))
  }

  function Texts(es: seq<ErrorElement>): (ts: seq<string>)
    ensures |ts| == |es| && forall k :: 0 <= k < |es| ==> ts[k] == es[k].text
  {
    seq(|es|, k requires 0 <= k < |es| => es[k].text)
  }

  lemma TextsAppend(a: seq<ErrorElement>, b: seq<ErrorElement>)
    ensures Texts(a + b) == Texts(a) + Texts(b)
  {
  }

  lemma CollectedStep(page: Page, selectors: seq<string>, n: nat)
    requires n < |selectors|
    ensures Collected(page, selectors[..n + 1]) ==
      Collected(page, selectors[..n]) + FromProbes(selectors[n], Matches(page, selectors[n]))
  {
    assert selectors[..n + 1][..n] == selectors[..n];
  }

  lemma InAppend<T>(a: seq<T>, b: seq<T>, x: T)
    requires x in a || x in b
    ensures x in a + b
  {
    if x in a {
      var k :| 0 <= k < |a| && a[k] == x;
      assert (a + b)[k] == x;
    } else {
      var k :| 0 <= k < |b| && b[k] == x;
      assert (a + b)[|a| + k] == x;
    }
  }

  lemma FromProbesStep(selector: string, probes: seq<ElementProbe>)
    requires probes != []
    ensures FromProbes(selector, probes) ==
      FromProbes(selector, probes[..|probes| - 1]) + Entry(selector, probes[|probes| - 1])
  {
  }

  /** Every visible element with non-blank text is reported, under its selector, trimmed. */
  lemma {:induction false} FromProbesComplete(selector: string, probes: seq<ElementProbe>, i: nat)
    requires i < |probes| && probes[i].visible && HasText(probes[i])
    ensures ErrorElement(selector, Trim(probes[i].text.value)) in FromProbes(selector, probes)
  {
    var n := |probes| - 1;
    var e := ErrorElement(selector, Trim(probes[i].text.value));
    var front, last := FromProbes(selector, probes[..n]), Entry(selector, probes[n]);
    FromProbesStep(selector, probes);
    if i < n {
      assert e in front by {
        assert probes[..n][i] == probes[i];
        FromProbesComplete(selector, probes[..n], i);
      }
      InAppend(front, last, e);
    } else {
      assert last == [e];
      InAppend(front, last, e);
    }
  }

  lemma {:induction false} CollectedComplete(page: Page, selectors: seq<string>, s: string, i: nat)
    requires s in selectors && i < |Matches(page, s)|
    requires Matches(page, s)[i].visible && HasText(Matches(page, s)[i])
    ensures ErrorElement(s, Trim(Matches(page, s)[i].text.value)) in Collected(page, selectors)
  {
    var n := |selectors| - 1;
    if selectors[n] == s {
      FromProbesComplete(s, Matches(page, s), i);
    } else {
      assert s in selectors[..n] by {
        var j :| 0 <= j < |selectors| && selectors[j] == s;
        assert j < n;
        assert selectors[..n][j] == s;
      }
      CollectedComplete(page, selectors[..n], s, i);
    }
  }

  /** Every entry is the trimmed text of a visible element of the selector that has text. */
  lemma {:induction false} FromProbesSound(selector: string, probes: seq<ElementProbe>, k: nat)
    requires k < |FromProbes(selector, probes)|
    ensures exists i :: (0 <= i < |probes| && probes[i].visible && HasText(probes[i]) &&
                         FromProbes(selector, probes)[k] == ErrorElement(selector, Trim(probes[i].text.value)))
  {
    var n := |probes| - 1;
    var front, last := FromProbes(selector, probes[..n]), Entry(selector, probes[n]);
    FromProbesStep(selector, probes);
    if k < |front| {
      FromProbesSound(selector, probes[..n], k);
      var i :| 0 <= i < n && probes[..n][i].visible && HasText(probes[..n][i]) &&
        front[k] == ErrorElement(selector, Trim(probes[..n][i].text.value));
      assert probes[..n][i] == probes[i];
      assert (front + last)[k] == front[k];
    } else {
      assert (front + last)[k] == last[0];
      assert probes[n].visible && HasText(probes[n]);
    }
  }

  /** Every collected entry comes from a visible element with text of one of the selectors. */
  lemma {:induction false} CollectedSound(page: Page, selectors: seq<string>, k: nat)
    requires k < |Collected(page, selectors)|
    ensures exists s, i :: (s in selectors && 0 <= i < |Matches(page, s)| &&
                            Matches(page, s)[i].visible && HasText(Matches(page, s)[i]) &&
                            Collected(page, selectors)[k] == ErrorElement(s, Trim(Matches(page, s)[i].text.value)))
  {
    var n := |selectors| - 1;
    var sel := selectors[n];
    var front, last := Collected(page, selectors[..n]), FromProbes(sel, Matches(page, sel));
    assert Collected(page, selectors) == front + last;
    if k < |front| {
      CollectedSound(page, selectors[..n], k);
      var s, i :| s in selectors[..n] && 0 <= i < |Matches(page, s)| &&
        Matches(page, s)[i].visible && HasText(Matches(page, s)[i]) &&
        front[k] == ErrorElement(s, Trim(Matches(page, s)[i].text.value));
      assert (front + last)[k] == front[k];
      assert s in selectors;
    } else {
      FromProbesSound(sel, Matches(page, sel), k - |front|);
      assert (front + last)[k] == last[k - |front|];
    }
  }

  /** The report of `checkForErrorMessages` on `page`. */
  function ErrorReport(page: Page): ErrorCheck {
    var keywords := FoundKeywords(LowerPageText(page.bodyText), ErrorKeywords);
    var elements := Collected(page, ErrorSelectors);
    ErrorCheck(|keywords| > 0 || |elements| > 0, Texts(elements), keywords, elements)
  }

  /** The keyword loop of `checkForErrorMessages()`. */
  method ScanKeywords(lowerPageText: string) returns (foundKeywords: seq<string>)
    ensures foundKeywords == FoundKeywords(lowerPageText, ErrorKeywords)
  {
    foundKeywords := [];
    var i := 0;
    while i < |ErrorKeywords|
      invariant 0 <= i <= |ErrorKeywords|
      invariant foundKeywords == FoundKeywords(lowerPageText, ErrorKeywords[..i])
    {
      assert ErrorKeywords[..i + 1][..i] == ErrorKeywords[..i];
      if Contains(lowerPageText, ErrorKeywords[i]) {
        foundKeywords := foundKeywords + [ErrorKeywords[i]];
      }
      i := i + 1;
    }
    assert ErrorKeywords[..i] == ErrorKeywords;
  }

  /** The inner loop over the `count` matches of one selector. */
  method CollectFromSelector(selector: string, probes: seq<ElementProbe>) returns (elements: seq<ErrorElement>)
    ensures elements == FromProbes(selector, probes)
  {
    elements := [];
    var k := 0;
    while k < |probes|
      invariant 0 <= k <= |probes|
      invariant elements == FromProbes(selector, probes[..k])
    {
      assert probes[..k + 1][..k] == probes[..k];
      var el := probes[k];
      if el.visible && HasText(el) {
        elements := elements + [ErrorElement(selector, Trim(el.text.value))];
      }
      k := k + 1;
    }
    assert probes[..k] == probes;
  }

  /** The outer loop over the error selectors, filling `errorElements` and `errorMessages`
      side by side. */
  method CollectErrorElements(page: Page) returns (errorElements: seq<ErrorElement>, errorMessages: seq<string>)
    ensures errorElements == Collected(page, ErrorSelectors)
    ensures errorMessages == Texts(errorElements)
  {
    errorElements := [];
    errorMessages := [];
    var s := 0;
    while s < |ErrorSelectors|
      invariant 0 <= s <= |ErrorSelectors|
      invariant errorElements == Collected(page, ErrorSelectors[..s])
      invariant errorMessages == Texts(errorElements)
    {
      var selector := ErrorSelectors[s];
      var found := CollectFromSelector(selector, Matches(page, selector));
      CollectedStep(page, ErrorSelectors, s);
      TextsAppend(errorElements, found);
      errorElements := errorElements + found;
      errorMessages := errorMessages + Texts(found);
      s := s + 1;
    }
    assert ErrorSelectors[..s] == ErrorSelectors;
  }

  /** `checkForErrorMessages()`: scan the text for keywords, then every match of every error
      selector for visible, non-blank text. */
  method CheckForErrorMessages(page: Page) returns (r: ErrorCheck)
    ensures r == ErrorReport(page)
    ensures r.hasError <==> |r.errorKeywords| > 0 || |r.errorElements| > 0
    ensures |r.errorMessages| == |r.errorElements|
  {
    var lowerPageText := LowerPageText(page.bodyText);
    var foundKeywords := ScanKeywords(lowerPageText);
    var errorElements, errorMessages := CollectErrorElements(page);
    var hasError := |foundKeywords| > 0 || |errorElements| > 0;
    r := ErrorCheck(hasError, errorMessages, foundKeywords, errorElements);
  }

  /** What the report promises: the keywords are exactly the listed ones found in the
      lower-cased text, without repeats; every message is the trimmed, non-blank text of a
      collected element, and every visible element with such text is collected. */
  lemma ErrorReportProperties(page: Page)
    ensures var r := ErrorReport(page);
      (forall k :: k in r.errorKeywords <==> k in ErrorKeywords && Contains(LowerPageText(page.bodyText), k)) &&
      NoDuplicates(r.errorKeywords) &&
      (forall j :: 0 <= j < |r.errorMessages| ==>
         r.errorMessages[j] == r.errorElements[j].text && r.errorMessages[j] != "" &&
         Trim(r.errorMessages[j]) == r.errorMessages[j] && r.errorElements[j].selector in ErrorSelectors) &&
      (forall s, i :: (s in ErrorSelectors && 0 <= i < |Matches(page, s)| &&
                       Matches(page, s)[i].visible && HasText(Matches(page, s)[i])) ==>
         ErrorElement(s, Trim(Matches(page, s)[i].text.value)) in r.errorElements)
  {
    var text := LowerPageText(page.bodyText);
    forall k ensures k in FoundKeywords(text, ErrorKeywords) <==> k in ErrorKeywords && Contains(text, k) {
      FoundKeywordsMembers(text, ErrorKeywords, k);
    }
    ErrorKeywordsDistinct();
    FoundKeywordsNoDuplicates(text, ErrorKeywords);
    forall s, i | s in ErrorSelectors && 0 <= i < |Matches(page, s)| &&
         Matches(page, s)[i].visible && HasText(Matches(page, s)[i])
      ensures ErrorElement(s, Trim(Matches(page, s)[i].text.value)) in Collected(page, ErrorSelectors)
    {
      CollectedComplete(page, ErrorSelectors, s, i);
    }
    var es := Collected(page, ErrorSelectors);
    forall j | 0 <= j < |es|
      ensures es[j].text != "" && Trim(es[j].text) == es[j].text && es[j].selector in ErrorSelectors
    {
      CollectedSound(page, ErrorSelectors, j);
      var s, i :| s in ErrorSelectors && 0 <= i < |Matches(page, s)| &&
        Matches(page, s)[i].visible && HasText(Matches(page, s)[i]) &&
        es[j] == ErrorElement(s, Trim(Matches(page, s)[i].text.value));
      TrimIdempotent(Matches(page, s)[i].text.value);
    }
  }

  // ---------------------------------------------------------------- getErrorText

  /** `locator(selector).first()`: the first match, if any. */
  function First(page: Page, selector: string): Option<ElementProbe> {
    var ms := Matches(page, selector);
    if ms == [] then None else Some(ms[0])
  }

  /** The first element of `selector` is visible and has a non-empty text. */
  predicate Shows(page: Page, selector: string) {
    var f := First(page, selector);
    f.Some? && f.value.visible && f.value.text.Some? && f.value.text.value != ""
  }

  /** The trimmed text of the first selector that shows something; trimming may leave `""`. */
  function FirstErrorText(page: Page, selectors: seq<string>): Option<string> {
    if selectors == [] then None
    else if Shows(page, selectors[0]) then Some(Trim(First(page, selectors[0]).value.text.value))
    else FirstErrorText(page, selectors[1..])
  }

  /** `getErrorText()`: returns at the first selector whose first element is visible with text. */
  method GetErrorText(page: Page) returns (r: Option<string>)
    ensures r == FirstErrorText(page, ErrorTextSelectors)
  {
    var i := 0;
    while i < |ErrorTextSelectors|
      invariant 0 <= i <= |ErrorTextSelectors|
      invariant FirstErrorText(page, ErrorTextSelectors) == FirstErrorText(page, ErrorTextSelectors[i..])
    {
      var selector := ErrorTextSelectors[i];
      var element := First(page, selector);
      var isVisible := element.Some? && element.value.visible;
      if isVisible {
        var text := element.value.text;
        if text.Some? && text.value != "" {
          return Some(Trim(text.value));
        }
      }
      assert ErrorTextSelectors[i..][1..] == ErrorTextSelectors[i + 1..];
      i := i + 1;
    }
    return None;
  }

  /** The text found is that of a selector that shows something, and no earlier selector
      does; `None` means no selector shows anything. */
  lemma {:induction false} FirstErrorTextIsFirst(page: Page, selectors: seq<string>)
    ensures FirstErrorText(page, selectors).None? <==> forall j :: 0 <= j < |selectors| ==> !Shows(page, selectors[j])
    ensures FirstErrorText(page, selectors).Some? ==>
      exists j :: 0 <= j < |selectors| && Shows(page, selectors[j]) &&
        FirstErrorText(page, selectors) == Some(Trim(First(page, selectors[j]).value.text.value)) &&
        forall m :: 0 <= m < j ==> !Shows(page, selectors[m])
  {
    if selectors != [] && !Shows(page, selectors[0]) {
      FirstErrorTextIsFirst(page, selectors[1..]);
      var rest := selectors[1..];
      if FirstErrorText(page, rest).Some? {
        var j :| 0 <= j < |rest| && Shows(page, rest[j]) &&
          FirstErrorText(page, rest) == Some(Trim(First(page, rest[j]).value.text.value)) &&
          forall m :: 0 <= m < j ==> !Shows(page, rest[m]);
        assert selectors[j + 1] == rest[j];
        forall m | 0 <= m < j + 1 ensures !Shows(page, selectors[m]) {
          if m > 0 { assert selectors[m] == rest[m - 1]; }
        }
      }
      forall j | 0 <= j < |selectors| && FirstErrorText(page, rest).None? ensures !Shows(page, selectors[j]) {
        if j > 0 { assert selectors[j] == rest[j - 1]; }
      }
    }
  }

  // ---------------------------------------------------------------- iframe error message

  /** What Playwright reports about `#errorMessage`: whether it became visible within the wait,
      how many elements match, their text (`''` when reading it threw) and the computed
      `display` (`'none'` when evaluating it threw). */
  datatype ErrorMessageProbe = ErrorMessageProbe(appearsWithinWait: bool, count: nat, text: string, display: string)

  /** `isIframeErrorMessageVisible()`: visible within the wait, or present with non-blank
      text and a display other than `none`. */
  predicate IsIframeErrorMessageVisible(p: ErrorMessageProbe) {
    p.appearsWithinWait || (p.count > 0 && |Trim(p.text)| > 0 && p.display != "none")
  }

  /** What one call of `getIframeErrorMessage()` sees: its own `isIframeErrorMessageVisible()`
      check, and then its own `textContent()` read (`None` for `null`). */
  datatype IframeMessageRead = IframeMessageRead(check: ErrorMessageProbe, text: Option<string>)

  /** `getIframeErrorMessage()`: `null` unless its check counts the element as visible; then
      `text?.trim() || null` of its own read. */
  function GetIframeErrorMessage(read: IframeMessageRead): (m: Option<string>)
    ensures m.Some? <==>
      IsIframeErrorMessageVisible(read.check) && read.text.Some? && Trim(read.text.value) != ""
    ensures m.Some? ==> m.value == Trim(read.text.value)
  {
    if !IsIframeErrorMessageVisible(read.check) then None
    else match read.text
      case None => None
      case Some(text) =>
        var t := Trim(text);
        if t == "" then None else Some(t)
  }

  /** `hasExpectedText` of `validateIframeErrorMessage()`: its own visibility check `first`,
      then, only when that passes, a call of `getIframeErrorMessage()`, which looks again. */
  predicate HasExpectedText(first: ErrorMessageProbe, read: IframeMessageRead) {
    var message := if IsIframeErrorMessageVisible(first) then GetIframeErrorMessage(read) else None;
    message == Some(ExpectedIframeError)
  }

  /** The expected sentence is found exactly when both visibility checks pass and the text
      read afterwards is that sentence, less surrounding white space. */
  lemma ExpectedTextIff(first: ErrorMessageProbe, read: IframeMessageRead)
    ensures HasExpectedText(first, read) <==>
      IsIframeErrorMessageVisible(first) && IsIframeErrorMessageVisible(read.check) &&
      read.text.Some? && Trim(read.text.value) == ExpectedIframeError
  {
  }

  /** When the element does not change between the reads, the sentence is found exactly
      when the element counts as visible and its trimmed text is the sentence. */
  lemma ExpectedTextSteadyPage(p: ErrorMessageProbe)
    ensures HasExpectedText(p, IframeMessageRead(p, Some(p.text))) <==>
      IsIframeErrorMessageVisible(p) && Trim(p.text) == ExpectedIframeError
  {
  }

  // ---------------------------------------------------------------- iframe validation

  /** What `getIframeDetails()` reads from `iframe[name="rcmDashboard"]`: the match count,
      and, when there is a match, its visibility and its `name` attribute (`None` when
      reading it threw). */
  datatype NamedIframeProbe = NamedIframeProbe(count: nat, visible: bool, name: Option<string>)

  /** What the page reports about `iframe[src*="tableau.com"]`. */
  datatype TableauProbe = TableauProbe(count: nat, firstVisible: bool)

  datatype IframeValidation = IframeValidation(isPresent: bool, isVisible: bool, hasCorrectName: bool, isTableauIframe: bool)

  /** `validateRcmDashboardIframe()` without its diagnostic `details` string. */
  method ValidateRcmDashboardIframe(named: NamedIframeProbe, tableau: TableauProbe) returns (r: IframeValidation)
    ensures r.hasCorrectName <==> named.count > 0 && named.name == Some("rcmDashboard")
    ensures r.isTableauIframe <==> !r.hasCorrectName && tableau.count > 0
    ensures !(r.hasCorrectName && r.isTableauIframe)
    ensures r.isPresent <==> named.count > 0 || r.isTableauIframe
    ensures r.isVisible == if r.isTableauIframe then tableau.firstVisible else named.count > 0 && named.visible
  {
    var found := named.count > 0;
    var detailsVisible := found && named.visible;
    var detailsName := if found then named.name else None;

    var isPresent := found;
    var isVisible := detailsVisible;
    var hasCorrectName := detailsName == Some("rcmDashboard");
    var isTableauIframe := false;

    if isPresent && hasCorrectName {
    } else {
      var tableauCount := tableau.count;
      if tableauCount > 0 {
        isPresent := true;
        isTableauIframe := true;
        isVisible := tableau.firstVisible;
      }
    }
    r := IframeValidation(isPresent, isVisible, hasCorrectName, isTableauIframe);
  }
}
