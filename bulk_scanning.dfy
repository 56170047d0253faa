/** The decisions of the bulk-scanning page object (pages/patient/BulkScanningPage.ts): the
    guards on disabled fields, the first-row selection with its forced-click retry, the
    first visible `+ Pat Docs` entry, the search button, the two-tier Save lookup, the
    document counter and the upload-and-prepare workflow.

    The page is a class. What Playwright would report (attributes, counts, visibility, text,
    and whether a step throws) is fixed when the page is built, in `const` fields; what the
    methods do to the page is recorded in mutable fields: the log of clicks and file uploads
    in order, and the values of the three text inputs. Waits and pauses have no effect here.
    A Playwright call the source does not guard with `catch` is taken to succeed. */
module BulkScanning {
  import opened Wrappers
  import opened JsString

  /** The elements the page object clicks. `MatOption(i)` is `matOptions.nth(i)`. */
  datatype Target =
    | DescriptionField
    | CategoryField
    | MatOption(option: int)
    | FirstDocument
    | PatDocs(index: nat)
    | SearchButton
    | DialogSave
    /** The `saveButton` locator; its first selector is the overlay one, so it may resolve to
        the overlay Save button again. */
    | FallbackSave
    | UploadButton

  /** A click that took place (`force` for `click({ force: true })`), or a file set on the
      file input. */
  datatype Action = Click(target: Target, force: bool) | SetInputFiles(path: string)

  /** How the steps inside one `try` of `clickSave` end: all of them run, or one throws
      before the click happens, or one throws after it (the load-state wait). */
  datatype SaveStep = Completes | FailsBeforeClick | FailsAfterClick

  /** `getAttribute('aria-disabled') === 'true'`. */
  predicate AriaDisabled(attr: Option<string>) {
    attr == Some("true")
  }

  /** The clicks of `selectDescription`/`selectCategory` on a dropdown: nothing when it is
      disabled, else the dropdown and then option `optionIndex - 1`. */
  function DropdownClicks(attr: Option<string>, field: Target, optionIndex: int): seq<Action> {
    if AriaDisabled(attr) then [] else [Click(field, false), Click(MatOption(optionIndex - 1), false)]
  }

  /** The clicks of `selectFirstDocument`: none without a row, else one click, forced when the
      normal click threw. */
  function FirstDocumentClicks(rowCount: nat, normalClickThrows: bool): seq<Action> {
    if rowCount == 0 then [] else [Click(FirstDocument, normalClickThrows)]
  }

  /** Index of the first `true` of `visible` at or after `from`. */
  function FirstVisible(visible: seq<bool>, from: nat): (r: Option<nat>)
    requires from <= |visible|
    ensures r.Some? ==> from <= r.value < |visible| && visible[r.value]
    ensures r.Some? ==> forall j :: from <= j < r.value ==> !visible[j]
    ensures r.None? ==> forall j :: from <= j < |visible| ==> !visible[j]
    decreases |visible| - from
  {
    if from == |visible| then None
    else if visible[from] then Some(from)
    else FirstVisible(visible, from + 1)
  }

  /** The effect of one `try` of `clickSave` on a button that exists. */
  function SaveClicks(target: Target, step: SaveStep): seq<Action> {
    if step == FailsBeforeClick then [] else [Click(target, false)]
  }

  /** The overlay Save button is found and its steps all run. */
  predicate DialogSaveCompletes(dialogCount: nat, dialogStep: SaveStep) {
    dialogCount > 0 && dialogStep == Completes
  }

  /** The clicks of `clickSave`: the overlay button first; the fallback `saveButton` only when the
      overlay one is absent or its steps threw. */
  function ClickSaveClicks(dialogCount: nat, dialogStep: SaveStep, fallbackCount: nat, fallbackStep: SaveStep): seq<Action> {
    var dialog := if dialogCount > 0 then SaveClicks(DialogSave, dialogStep) else [];
    if DialogSaveCompletes(dialogCount, dialogStep) then dialog
    else dialog + (if fallbackCount > 0 then SaveClicks(FallbackSave, fallbackStep) else [])
  }

  /** The result of `clickSave`. */
  function ClickSaveResult(dialogCount: nat, dialogStep: SaveStep, fallbackCount: nat, fallbackStep: SaveStep): bool {
    DialogSaveCompletes(dialogCount, dialogStep) || (fallbackCount > 0 && fallbackStep == Completes)
  }

  /** `getDocumentCounterValue()` on the badge count and text: `parseInt(text?.trim() || '0', 10)`,
      with `NaN` read as 0. */
  function CounterValue(count: nat, text: Option<string>): int {
    if count == 0 then 0
    else
      var trimmed := if text.Some? then Trim(text.value) else "";
      var source := if trimmed == "" then "0" else trimmed;
      match ParseIntPrefix(source)
      case None => 0
      case Some(v) => v
  }

  class BulkScanningPage {
    // What the page reports.
    const descriptionAriaDisabled: Option<string>
    const categoryAriaDisabled: Option<string>
    const lastNameDisabled: bool
    const dobDisabled: bool
    const notesDisabled: bool
    const rowCount: nat
    const normalClickThrows: bool
    const patDocsVisible: seq<bool>
    const searchButtonCount: nat
    const searchButtonVisible: bool
    const dialogSaveCount: nat
    const dialogSaveStep: SaveStep
    const fallbackSaveCount: nat
    const fallbackSaveStep: SaveStep
    const counterCount: nat
    const counterText: Option<string>

    // What the page object has done to it.
    var actions: seq<Action>
    var lastName: string
    var dob: string
    var notes: string

    constructor(descriptionAriaDisabled: Option<string>, categoryAriaDisabled: Option<string>,
                lastNameDisabled: bool, dobDisabled: bool, notesDisabled: bool,
                rowCount: nat, normalClickThrows: bool, patDocsVisible: seq<bool>,
                searchButtonCount: nat, searchButtonVisible: bool,
                dialogSaveCount: nat, dialogSaveStep: SaveStep, fallbackSaveCount: nat, fallbackSaveStep: SaveStep,
                counterCount: nat, counterText: Option<string>,
                lastName: string, dob: string, notes: string)
      ensures this.descriptionAriaDisabled == descriptionAriaDisabled && this.categoryAriaDisabled == categoryAriaDisabled
      ensures this.lastNameDisabled == lastNameDisabled && this.dobDisabled == dobDisabled && this.notesDisabled == notesDisabled
      ensures this.rowCount == rowCount && this.normalClickThrows == normalClickThrows && this.patDocsVisible == patDocsVisible
      ensures this.searchButtonCount == searchButtonCount && this.searchButtonVisible == searchButtonVisible
      ensures this.dialogSaveCount == dialogSaveCount && this.dialogSaveStep == dialogSaveStep
      ensures this.fallbackSaveCount == fallbackSaveCount && this.fallbackSaveStep == fallbackSaveStep
      ensures this.counterCount == counterCount && this.counterText == counterText
      ensures actions == [] && this.lastName == lastName && this.dob == dob && this.notes == notes
      ensures GuardsRespected()
    {
      this.descriptionAriaDisabled := descriptionAriaDisabled;
      this.categoryAriaDisabled := categoryAriaDisabled;
      this.lastNameDisabled := lastNameDisabled;
      this.dobDisabled := dobDisabled;
      this.notesDisabled := notesDisabled;
      this.rowCount := rowCount;
      this.normalClickThrows := normalClickThrows;
      this.patDocsVisible := patDocsVisible;
      this.searchButtonCount := searchButtonCount;
      this.searchButtonVisible := searchButtonVisible;
      this.dialogSaveCount := dialogSaveCount;
      this.dialogSaveStep := dialogSaveStep;
      this.fallbackSaveCount := fallbackSaveCount;
      this.fallbackSaveStep := fallbackSaveStep;
      this.counterCount := counterCount;
      this.counterText := counterText;
      actions := [];
      this.lastName := lastName;
      this.dob := dob;
      this.notes := notes;
    }

    /** A click the page object may make on this page: never on a disabled dropdown, a hidden
        `+ Pat Docs` entry or an absent or hidden search button; the first row only when
        there is one, forced exactly when the normal click threw; the fallback Save button only
        when the overlay one did not complete. */
    predicate Allowed(a: Action) {
      match a
      case SetInputFiles(_) => true
      case Click(target, force) =>
        match target
        case DescriptionField => !AriaDisabled(descriptionAriaDisabled) && !force
        case CategoryField => !AriaDisabled(categoryAriaDisabled) && !force
        case MatOption(_) => !force
        case FirstDocument => rowCount > 0 && force == normalClickThrows
        case PatDocs(i) => i < |patDocsVisible| && patDocsVisible[i] && !force
        case SearchButton => searchButtonCount > 0 && searchButtonVisible && !force
        case DialogSave => dialogSaveCount > 0 && dialogSaveStep != FailsBeforeClick && !force
        case FallbackSave =>
          !DialogSaveCompletes(dialogSaveCount, dialogSaveStep) && fallbackSaveCount > 0 &&
          fallbackSaveStep != FailsBeforeClick && !force
        case UploadButton => !force
    }

    predicate GuardsRespected()
      reads this
    {
      forall k :: 0 <= k < |actions| ==> Allowed(actions[k])
    }

    /** `isDescriptionDisabled()` / `selectDescription(optionIndex)`. */
    method SelectDescription(optionIndex: int := 1) returns (selected: bool)
      requires GuardsRespected()
      modifies this
      ensures selected <==> !AriaDisabled(descriptionAriaDisabled)
      ensures actions == old(actions) + DropdownClicks(descriptionAriaDisabled, DescriptionField, optionIndex)
      ensures lastName == old(lastName) && dob == old(dob) && notes == old(notes)
      ensures GuardsRespected()
    {
      var isDisabled := AriaDisabled(descriptionAriaDisabled);
      if !isDisabled {
        actions := actions + [Click(DescriptionField, false)];
        actions := actions + [Click(MatOption(optionIndex - 1), false)];
        return true;
      }
      return false;
    }

    /** `isCategoryDisabled()` / `selectCategory(optionIndex)`. */
    method SelectCategory(optionIndex: int := 1) returns (selected: bool)
      requires GuardsRespected()
      modifies this
      ensures selected <==> !AriaDisabled(categoryAriaDisabled)
      ensures actions == old(actions) + DropdownClicks(categoryAriaDisabled, CategoryField, optionIndex)
      ensures lastName == old(lastName) && dob == old(dob) && notes == old(notes)
      ensures GuardsRespected()
    {
      var isDisabled := AriaDisabled(categoryAriaDisabled);
      if !isDisabled {
        actions := actions + [Click(CategoryField, false)];
        actions := actions + [Click(MatOption(optionIndex - 1), false)];
        return true;
      }
      return false;
    }

    /** `fillLastName(value)`. */
    method FillLastName(value: string) returns (filled: bool)
      requires GuardsRespected()
      modifies this
      ensures filled <==> !lastNameDisabled
      ensures lastName == if filled then value else old(lastName)
      ensures actions == old(actions) && dob == old(dob) && notes == old(notes)
      ensures GuardsRespected()
    {
      var isDisabled := lastNameDisabled;
      if !isDisabled {
        lastName := value;
        return true;
      }
      return false;
    }

    /** `fillDOB(value)`. */
    method FillDob(value: string) returns (filled: bool)
      requires GuardsRespected()
      modifies this
      ensures filled <==> !dobDisabled
      ensures dob == if filled then value else old(dob)
      ensures actions == old(actions) && lastName == old(lastName) && notes == old(notes)
      ensures GuardsRespected()
    {
      var isDisabled := dobDisabled;
      if !isDisabled {
        dob := value;
        return true;
      }
      return false;
    }

    /** `fillNotes(value)`. */
    method FillNotes(value: string) returns (filled: bool)
      requires GuardsRespected()
      modifies this
      ensures filled <==> !notesDisabled
      ensures notes == if filled then value else old(notes)
      ensures actions == old(actions) && lastName == old(lastName) && dob == old(dob)
      ensures GuardsRespected()
    {
      var isDisabled := notesDisabled;
      if !isDisabled {
        notes := value;
        return true;
      }
      return false;
    }

    /** `uploadDocument(filePath)`: the Upload button, then the file input. */
    method UploadDocument(filePath: string)
      requires GuardsRespected()
      modifies this
      ensures actions == old(actions) + [Click(UploadButton, false), SetInputFiles(filePath)]
      ensures lastName == old(lastName) && dob == old(dob) && notes == old(notes)
      ensures GuardsRespected()
    {
      actions := actions + [Click(UploadButton, false)];
      actions := actions + [SetInputFiles(filePath)];
    }

    /** `selectFirstDocument()`: a normal click, retried once with `force` when it throws. */
    method SelectFirstDocument() returns (selected: bool)
      requires GuardsRespected()
      modifies this
      ensures selected <==> rowCount > 0
      ensures actions == old(actions) + FirstDocumentClicks(rowCount, normalClickThrows)
      ensures lastName == old(lastName) && dob == old(dob) && notes == old(notes)
      ensures GuardsRespected()
    {
      var count := rowCount;
      if count > 0 {
        if !normalClickThrows {
          actions := actions + [Click(FirstDocument, false)];
        } else {
          actions := actions + [Click(FirstDocument, true)];
        }
        return true;
      }
      return false;
    }

    /** `selectPatDocs()`: clicks the first visible `+ Pat Docs` entry. */
    method SelectPatDocs() returns (selected: bool)
      requires GuardsRespected()
      modifies this
      ensures selected <==> FirstVisible(patDocsVisible, 0).Some?
      ensures actions == old(actions) +
        (if selected then [Click(PatDocs(FirstVisible(patDocsVisible, 0).value), false)] else [])
      ensures lastName == old(lastName) && dob == old(dob) && notes == old(notes)
      ensures GuardsRespected()
    {
      var count := |patDocsVisible|;
      if count > 0 {
        var i := 0;
        while i < count
          invariant 0 <= i <= count
          invariant FirstVisible(patDocsVisible, 0) == FirstVisible(patDocsVisible, i)
          invariant actions == old(actions)
        {
          var visible := patDocsVisible[i];
          if visible {
            actions := actions + [Click(PatDocs(i), false)];
            return true;
          }
          i := i + 1;
        }
      }
      return false;
    }

    /** `clickSearch()`. */
    method ClickSearch() returns (clicked: bool)
      requires GuardsRespected()
      modifies this
      ensures clicked <==> searchButtonCount > 0 && searchButtonVisible
      ensures actions == old(actions) + (if clicked then [Click(SearchButton, false)] else [])
      ensures lastName == old(lastName) && dob == old(dob) && notes == old(notes)
      ensures GuardsRespected()
    {
      var count := searchButtonCount;
      if count > 0 {
        var visible := searchButtonVisible;
        if visible {
          actions := actions + [Click(SearchButton, false)];
          return true;
        }
      }
      return false;
    }

    /** `clickSave()`: the Save button of the overlay dialog, else the one of the page. */
    method ClickSave() returns (saved: bool)
      requires GuardsRespected()
      modifies this
      ensures saved == ClickSaveResult(dialogSaveCount, dialogSaveStep, fallbackSaveCount, fallbackSaveStep)
      ensures actions == old(actions) + ClickSaveClicks(dialogSaveCount, dialogSaveStep, fallbackSaveCount, fallbackSaveStep)
      ensures lastName == old(lastName) && dob == old(dob) && notes == old(notes)
      ensures GuardsRespected()
    {
      var dialogCount := dialogSaveCount;
      if dialogCount > 0 {
        if dialogSaveStep != FailsBeforeClick {
          actions := actions + [Click(DialogSave, false)];
        }
        if dialogSaveStep == Completes {
          return true;
        }
      }
      var count := fallbackSaveCount;
      if count > 0 {
        if fallbackSaveStep != FailsBeforeClick {
          actions := actions + [Click(FallbackSave, false)];
        }
        return fallbackSaveStep == Completes;
      }
      return false;
    }

    /** `getDocumentCounterValue()`. */
    function GetDocumentCounterValue(): int {
      CounterValue(counterCount, counterText)
    }

    /** `uploadAndPrepareDocument(filePath)`: upload, select the first row, and only when a
        row was selected pick the first description and category. */
    method UploadAndPrepareDocument(filePath: string) returns (selected: bool)
      requires GuardsRespected()
      modifies this
      ensures selected <==> rowCount > 0
      ensures actions == old(actions) + [Click(UploadButton, false), SetInputFiles(filePath)] +
        FirstDocumentClicks(rowCount, normalClickThrows) +
        (if selected then DropdownClicks(descriptionAriaDisabled, DescriptionField, 1) +
                          DropdownClicks(categoryAriaDisabled, CategoryField, 1)
         else [])
      ensures lastName == old(lastName) && dob == old(dob) && notes == old(notes)
      ensures GuardsRespected()
    {
      UploadDocument(filePath);
      selected := SelectFirstDocument();
      if selected {
        var _ := SelectDescription();
        var _ := SelectCategory();
      }
    }
  }

  // ---------------------------------------------------------------- properties

  /** A disabled dropdown is left alone; an enabled one is opened and option
      `optionIndex - 1` is picked, so the default picks the first option. */
  lemma DropdownGuard(attr: Option<string>, field: Target, optionIndex: int)
    ensures AriaDisabled(attr) <==> DropdownClicks(attr, field, optionIndex) == []
    ensures !AriaDisabled(attr) ==> DropdownClicks(attr, field, 1)[1] == Click(MatOption(0), false)
  {
  }

  /** The first row is clicked exactly once when it exists, forced only after a thrown
      normal click. */
  lemma FirstDocumentClickedOnce(rowCount: nat, normalClickThrows: bool)
    ensures |FirstDocumentClicks(rowCount, normalClickThrows)| == (if rowCount > 0 then 1 else 0)
    ensures forall k :: 0 <= k < |FirstDocumentClicks(rowCount, normalClickThrows)| ==>
      FirstDocumentClicks(rowCount, normalClickThrows)[k] == Click(FirstDocument, normalClickThrows)
  {
  }

  /** The first visible entry is found exactly when some entry is visible, and it is the
      lowest-indexed visible one. */
  lemma {:induction false} FirstVisibleIff(visible: seq<bool>)
    ensures FirstVisible(visible, 0).Some? <==> exists i :: 0 <= i < |visible| && visible[i]
    ensures forall i :: 0 <= i < |visible| && visible[i] ==>
      FirstVisible(visible, 0).Some? && FirstVisible(visible, 0).value <= i
  {
  }

  /** `clickSave` reports success only after a Save click whose steps all ran, and never
      reaches the fallback `saveButton` when the overlay button completed. */
  lemma {:induction false} ClickSaveSound(dialogCount: nat, dialogStep: SaveStep, fallbackCount: nat, fallbackStep: SaveStep)
    ensures var clicks := ClickSaveClicks(dialogCount, dialogStep, fallbackCount, fallbackStep);
      ClickSaveResult(dialogCount, dialogStep, fallbackCount, fallbackStep) ==>
        |clicks| > 0 && clicks[|clicks| - 1].Click? &&
        (clicks[|clicks| - 1].target == DialogSave ==> dialogStep == Completes) &&
        (clicks[|clicks| - 1].target == FallbackSave ==> fallbackStep == Completes)
    ensures DialogSaveCompletes(dialogCount, dialogStep) ==>
      Click(FallbackSave, false) !in ClickSaveClicks(dialogCount, dialogStep, fallbackCount, fallbackStep)
    ensures dialogCount == 0 && fallbackCount == 0 ==>
      !ClickSaveResult(dialogCount, dialogStep, fallbackCount, fallbackStep) &&
      ClickSaveClicks(dialogCount, dialogStep, fallbackCount, fallbackStep) == []
  {
  }

  /** No badge, or a badge whose text is blank or does not start with a number (a digit,
      or a sign and then a digit), reads 0. */
  lemma CounterFallsBackToZero(count: nat, text: Option<string>)
    ensures count == 0 ==> CounterValue(count, text) == 0
    ensures text.None? || Trim(text.value) == "" ==> CounterValue(count, text) == 0
    ensures (text.Some? && Trim(text.value) != "" && !IsDigit(Trim(text.value)[0]) &&
             Trim(text.value)[0] != '-' && Trim(text.value)[0] != '+') ==> CounterValue(count, text) == 0
    ensures (text.Some? && |Trim(text.value)| > 0 &&
             (Trim(text.value)[0] == '-' || Trim(text.value)[0] == '+') &&
             (|Trim(text.value)| == 1 || !IsDigit(Trim(text.value)[1]))) ==> CounterValue(count, text) == 0
  {
    if count > 0 && text.Some? && |Trim(text.value)| > 0 &&
       (Trim(text.value)[0] == '-' || Trim(text.value)[0] == '+') &&
       (|Trim(text.value)| == 1 || !IsDigit(Trim(text.value)[1])) {
      ParseIntOfBareSign(Trim(text.value));
    }
    if count > 0 && text.None? {
      assert DigitRunEnd("0", 0) == 1 by { DigitRunEndAt("0", 0, 1); }
      assert "0"[0..1] == "0";
    }
    if count > 0 && text.Some? && Trim(text.value) == "" {
      assert DigitRunEnd("0", 0) == 1 by { DigitRunEndAt("0", 0, 1); }
      assert "0"[0..1] == "0";
    }
  }

  /** A badge whose trimmed text starts with the decimal digits of `n` reads `n`, whatever
      non-digit text follows. */
  lemma CounterReadsLeadingNumber(count: nat, text: string, n: nat, rest: string)
    requires count > 0 && Trim(text) == NatToString(n) + rest
    requires rest == [] || !IsDigit(rest[0])
    ensures CounterValue(count, Some(text)) == n
  {
    ParseIntOfNatToString(n, rest);
  }

  /** A badge whose trimmed text is a sign and then the decimal digits of `n` reads `-n` for
      `-` and `n` for `+`, whatever non-digit text follows. */
  lemma CounterReadsSignedNumber(count: nat, text: string, sign: char, n: nat, rest: string)
    requires count > 0 && (sign == '-' || sign == '+')
    requires Trim(text) == [sign] + NatToString(n) + rest
    requires rest == [] || !IsDigit(rest[0])
    ensures CounterValue(count, Some(text)) == if sign == '-' then -(n as int) else n
  {
    ParseIntOfSignedNatToString(sign, n, rest);
  }
}
