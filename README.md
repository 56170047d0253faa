# Data rules of a Playwright test suite, in Dafny

The repository is an end-to-end browser test suite for a practice-management web
application. Most of it drives the remote application through Playwright. Seven pieces do
their own work on plain data, and this project models those pieces and proves what they do:

- **Email report tally** (`email_report.dfy`, module `EmailReport`), from
  `scripts/send-email-report.js`. The Allure result files of a run are filtered by name and
  parsed one by one. They are folded into the passed, failed, broken and skipped counters,
  the total, the list of failed tests and the PASSED/FAILED verdict. The fold is the
  `Tally` method, a loop proved against the specification function `Summarize`.
- **Version update of `environment.properties`** (`set_app_version.dfy`, module
  `SetAppVersion`), from `scripts/set-app-version.js`. If the content mentions
  `App.Version=`, every span from `App.Version=` to the end of its line is rewritten through
  `String.prototype.replace`; the model includes its `$` replacement patterns. Otherwise a
  line is spliced in after the first `Environment=` line.
- **Allure environment file** (`allure_environment.dfy`, module `AllureEnvironment`), from
  `scripts/generate-allure-environment.js`. It chooses the environment name and normalises
  it through the alias map, cuts the application URL down to its origin, and writes the nine
  `key=value` lines.
- **Random test data** (`test_data.dfy`, module `TestData`), from
  `utils/testDataHelpers.ts`. It covers the `MM/DD/YYYY` date of birth and the first-name and
  sex pairing. Each `Math.floor(Math.random() * n)` is a parameter below `n`.
- **Footer parsing** (`app_version.dfy`, module `AppVersion`), from
  `scripts/get-app-version.js`. The two case-insensitive regular expressions for the version
  and the server name are modelled as a leftmost search with maximal runs. `\s` is
  JavaScript's full white-space set, not just ASCII. Each expression has exactly one way to
  match at a given position, so this is what `match` returns.
- **RCM dashboard page object** (`rcm_dashboard.dfy`, module `RcmDashboard`), from
  `pages/admin2/RCMDashboardPage.ts`. It covers:
  - the keyword and error-element scan of `checkForErrorMessages`;
  - the early-return loop of `getErrorText`;
  - the iframe error message and its expected sentence;
  - the choice between the named iframe and a Tableau iframe.

  Every Playwright probe is an input. A probe that the code guards with `.catch` carries the
  fallback value that `.catch` gives.
- **Bulk-scanning page object** (`bulk_scanning.dfy`, module `BulkScanning`), from
  `pages/patient/BulkScanningPage.ts`. It is a class whose `const` fields hold what the page
  reports. Its `var` fields record what the methods do: the log of clicks and file uploads,
  and the three text inputs. The methods and their contracts say which clicks happen. The
  predicate `GuardsRespected` says that no click ever goes to the following:
  - a disabled dropdown;
  - a hidden entry;
  - a missing button;
  - the fallback Save button (the `saveButton` locator) after the overlay one completed.

Two helper modules support these. `Wrappers` holds `Option`. `JsString` models the String
built-ins the code calls, over ASCII:
- `toLowerCase`, `trim`, `includes`, `startsWith` and `endsWith`;
- `split` and `join` on one character;
- `padStart`, `toString` of a natural, and `parseInt(s, 10)`.

## Model

| member | source | states |
|---|---|---|
| EmailReport.ResultFiles | scripts/send-email-report.js:49-50 | a directory entry is considered exactly when its name ends in `-result.json` |
| EmailReport.ResultFilesSkipOthers | scripts/send-email-report.js:49-50 | inserting an entry with another name anywhere in the listing changes nothing |
| EmailReport.Records | scripts/send-email-report.js:59-64 | the files whose parse gave a value with fields, in file order; a file that threw gives nothing |
| EmailReport.CountStatus | scripts/send-email-report.js:65-88 | the number of records whose `status` is exactly the given string, as one `case` of the `switch` counts them |
| EmailReport.ToFailedTest | scripts/send-email-report.js:71-75 | a `failedTests` entry: the `name`, the `fullName` or else the `name`, and the details message or else `No details` |
| EmailReport.FailedEntries | scripts/send-email-report.js:69-83 | one entry per failed or broken record, in file order |
| EmailReport.Summarize | scripts/send-email-report.js:52-92 | the four status counters, `total` as the number of files that parsed, and `failedTests` |
| EmailReport.Verdict | scripts/send-email-report.js:95 | FAILED when failed or broken is positive, otherwise PASSED |
| EmailReport.ShownFailures | scripts/send-email-report.js:169 | the figure shown under "Failed" is failed + broken |
| EmailReport.Tally | scripts/send-email-report.js:52-92 | the counters and `failedTests` the loop leaves are the summary of the result files; the four known statuses never exceed `total`; `failedTests` has failed + broken entries; the verdict is FAILED exactly when some record failed or broke |
| EmailReport.RecordStep | scripts/send-email-report.js:65-88 | one more record adds one to the counter of its exact status and, when failed or broken, one entry to `failedTests` |
| EmailReport.CountsBounded | scripts/send-email-report.js:59-88 | passed + failed + broken + skipped <= records <= parsed files (`total`) |
| EmailReport.FailedEntriesCount | scripts/send-email-report.js:69-83 | `failedTests` has exactly failed + broken entries |
| EmailReport.FailedEntriesSound | scripts/send-email-report.js:69-83 | every entry of `failedTests` is built from a failed or broken record, with the `fullName` and `No details` fallbacks |
| EmailReport.RecordsAppend | scripts/send-email-report.js:59-92 | the records and parsed-file count of a concatenation of files are those of the parts, in order |
| EmailReport.UnreadableIgnored | scripts/send-email-report.js:89-91 | a file that cannot be read or parsed changes nothing in the summary, not even `total` |
| EmailReport.UnknownStatusCountsInTotalOnly | scripts/send-email-report.js:63-88 | a record with a status outside the four known ones adds one to `total` and changes nothing else |
| EmailReport.FailureCounted | scripts/send-email-report.js:95-96 | failed > 0 or broken > 0 exactly when some record has status `failed` or `broken` |
| EmailReport.SummaryConsistent | scripts/send-email-report.js:169 | the "Failed" figure (failed + broken) equals the number of `failedTests`; counts are bounded by `total`; the verdict is FAILED exactly when a record failed or broke |
| SetAppVersion.LineEnd | scripts/set-app-version.js:35 | `.*` stops at the first line terminator (LF, CR, U+2028, U+2029) or at the end |
| SetAppVersion.LineEndIs | scripts/set-app-version.js:35 | the end of a line is the first line terminator, and nothing else |
| SetAppVersion.Expand | scripts/set-app-version.js:35 | the replacement string of `replace`: `$$`, `$&`, `` $` `` and `$'` expand to `$`, the match, the text before and the text after; any other `$` stays |
| SetAppVersion.ReplaceRest | scripts/set-app-version.js:35 | the global scan: each match runs from `App.Version=` to the end of its line, is replaced by the expanded replacement, and the scan resumes after it |
| SetAppVersion.ReplaceAll | scripts/set-app-version.js:35 | `replace` over the whole content, from an empty prefix |
| SetAppVersion.Rewrite | scripts/set-app-version.js:35 | the literal reading: every span from `App.Version=` to the end of its line becomes `App.Version=<version>` |
| SetAppVersion.ExpandLiteral | scripts/set-app-version.js:35 | a replacement without `$` is inserted literally |
| SetAppVersion.ReplaceAllLiteral | scripts/set-app-version.js:35 | for a version without `$`, the global `replace` equals the literal span rewrite `Rewrite` |
| SetAppVersion.RewriteWithoutKey | scripts/set-app-version.js:34-35 | content without `App.Version=` is left as it is |
| SetAppVersion.RewriteKeyLine | scripts/set-app-version.js:35 | a line starting with `App.Version=` becomes `App.Version=<version>` and the rest from its terminator on is rewritten in turn |
| SetAppVersion.RewriteAfterPlainText | scripts/set-app-version.js:35 | text without `App.Version=` before a line terminator is copied unchanged |
| SetAppVersion.RewriteKeepsChar | scripts/set-app-version.js:35 | the rewrite keeps each of the first twelve characters |
| SetAppVersion.RewriteKeepsStart | scripts/set-app-version.js:35 | the result starts with `App.Version=` exactly when the content does |
| SetAppVersion.RewriteFrom | scripts/set-app-version.js:35 | text before the first `App.Version=` is kept unchanged |
| SetAppVersion.RewriteFirstSpan | scripts/set-app-version.js:34-35 | an `App.Version=` in the middle of a line is rewritten too, from the key to the end of its line, with the text before it kept |
| SetAppVersion.RewriteWritesVersion | scripts/set-app-version.js:34-35 | after the replace branch the content holds `App.Version=<version>` |
| SetAppVersion.RewriteIdempotent | scripts/set-app-version.js:35 | with a one-line version, rewriting twice is rewriting once |
| SetAppVersion.FindEnvironmentLine | scripts/set-app-version.js:40 | the index found is that of the first line starting with `Environment=`; none when no line does |
| SetAppVersion.InsertAfter | scripts/set-app-version.js:42 | `splice(k + 1, 0, line)` puts the line at `k + 1` and keeps every other line and its order |
| SetAppVersion.Updated | scripts/set-app-version.js:34-44 | the content written back: `replace` when `App.Version=` occurs, else the new line after the first `Environment=` line, else the content as read |
| SetAppVersion.SetAppVersion | scripts/set-app-version.js:31-45 | the update step by step, with `findIndex` as a scan over the lines and `splice` on them: the content it writes is `Updated`; the `replace` branch when `App.Version=` occurs; the content unchanged when there is no `Environment=` line either |
| SetAppVersion.InsertedLine | scripts/set-app-version.js:38-43 | without `App.Version=`, the lines of the result are the old lines with `App.Version=<version>` right after the first `Environment=` line |
| SetAppVersion.InsertionLayout | scripts/set-app-version.js:42-43 | where the inserted line sits in the joined text |
| SetAppVersion.InsertedParts | scripts/set-app-version.js:42-43 | the joined text before and after the splice differs only by `\n` and the new line after line `k` |
| SetAppVersion.UpdateWritesVersion | scripts/set-app-version.js:34-43 | whenever either branch runs, the result contains `App.Version=<version>` |
| SetAppVersion.UnchangedWithoutAnchor | scripts/set-app-version.js:40-44 | without `App.Version=` and without an `Environment=` line, the content is written back as read |
| SetAppVersion.InsertedLineStable | scripts/set-app-version.js:38-43 | the text the insert branch produces is a fixed point of the replace branch |
| SetAppVersion.InsertedTextStable | scripts/set-app-version.js:35 | a line `App.Version=<version>` between texts without the key is left alone by the rewrite |
| SetAppVersion.KeyLineStable | scripts/set-app-version.js:35 | a line `App.Version=<version>` followed by a new line without the key is left alone |
| SetAppVersion.UpdateIdempotent | scripts/set-app-version.js:34-45 | running the update twice with the same one-line version gives the result of running it once |
| AllureEnvironment.RawEnvironmentChoice | scripts/generate-allure-environment.js:13 | the first non-empty of the argument, `TEST_ENV` and `Development` is used |
| AllureEnvironment.RawEnvironment | scripts/generate-allure-environment.js:13 | the `||` chain over the argument, `TEST_ENV` and `Development`, with `''` falsy |
| AllureEnvironment.CanonicalNamesAreAliases | scripts/generate-allure-environment.js:16-23 | the lower-cased canonical names are keys of the alias map |
| AllureEnvironment.Normalize | scripts/generate-allure-environment.js:25 | the alias map looked up with the lower-cased name, the name itself when it is not a key |
| AllureEnvironment.NormalizeCases | scripts/generate-allure-environment.js:25 | an alias in any letter case becomes its canonical name; any other name is kept with its casing |
| AllureEnvironment.NormalizeTo | scripts/generate-allure-environment.js:16-25 | a name becomes `Development`, `Staging` or `Production` exactly when it lower-cases to one of that name's two aliases |
| AllureEnvironment.NormalizeIdempotent | scripts/generate-allure-environment.js:16-25 | normalising a normalised name changes nothing |
| AllureEnvironment.NormalizeIgnoresCase | scripts/generate-allure-environment.js:25 | two spellings of an alias that differ only in case normalise alike |
| AllureEnvironment.BaseUrl | scripts/generate-allure-environment.js:41 | the base URL is a prefix of the URL with at most two `/` |
| AllureEnvironment.BaseUrlKeepsShortUrl | scripts/generate-allure-environment.js:41 | the URL is kept whole exactly when it has at most two `/` |
| AllureEnvironment.BaseUrlCutsAtThirdSlash | scripts/generate-allure-environment.js:41 | a URL with three or more `/` is cut just before its third `/`: the result is followed by `/` in the URL and holds exactly two `/` |
| AllureEnvironment.BaseUrlIdempotent | scripts/generate-allure-environment.js:41 | cutting a cut URL changes nothing |
| AllureEnvironment.Detected | scripts/generate-allure-environment.js:33-47 | version, server and base URL: from `getAppVersion` with the URL cut to its origin when it returned; `Unknown`, `Unknown` and `BASE_URL` or the default when it threw |
| AllureEnvironment.Properties | scripts/generate-allure-environment.js:50-60 | nine properties with the keys in declaration order |
| AllureEnvironment.Lines | scripts/generate-allure-environment.js:63-64 | one `key=value` line per property, in order |
| AllureEnvironment.Serialize | scripts/generate-allure-environment.js:63-65 | the `key=value` lines joined with `\n` |
| AllureEnvironment.FileContent | scripts/generate-allure-environment.js:75 | the serialisation followed by one `\n` |
| AllureEnvironment.LinesSingle | scripts/generate-allure-environment.js:63-64 | single-line keys and values give lines without a newline |
| AllureEnvironment.SerializeRoundTrip | scripts/generate-allure-environment.js:63-65 | splitting the serialisation at newlines gives back exactly the `key=value` lines |
| AllureEnvironment.FileContentNewlines | scripts/generate-allure-environment.js:75 | the file holds one newline per property and ends with one |
| AllureEnvironment.GeneratedFile | scripts/generate-allure-environment.js:50-65 | the file reads back as nine lines, the first the normalised environment, the seventh `Playwright.Version=1.58.0` |
| TestData.TwoDigitsValue | utils/testDataHelpers.ts:15 | `padStart(2, '0')` of a number below 100 is two digits that read back as the number |
| TestData.GenerateRandomDob | utils/testDataHelpers.ts:11-16 | `MM/DD/YYYY` of the drawn month (1-12), day (1-28) and year (1980-2000), month and day padded to two digits |
| TestData.DobLayout | utils/testDataHelpers.ts:15 | the date of birth has ten characters, slashes at 2 and 5 and digits elsewhere |
| TestData.DobRoundTrip | utils/testDataHelpers.ts:12-15 | reading the three fields back gives the drawn month, day and year |
| TestData.DrawnDateValid | utils/testDataHelpers.ts:12-14 | year in 1980..2000, month in 1..12, day in 1..28, a valid calendar date |
| TestData.NameListsDisjoint | utils/testDataHelpers.ts:23-24 | no name is on both lists |
| TestData.GenerateRandomPatient | utils/testDataHelpers.ts:22-39 | a male name and sex on heads, a female name and sex on tails, the name at the drawn index of its list |
| TestData.PatientConsistent | utils/testDataHelpers.ts:26-38 | the patient is male exactly when the name comes from the male list; the name is on one of the lists |
| TestData.NameDeterminesSex | utils/testDataHelpers.ts:23-38 | the first name alone gives back the sex |
| AppVersion.SkipSeparators | scripts/get-app-version.js:32 | `[:\s]*` takes the maximal run of colons and JavaScript white space: the ASCII blanks, the no-break space, the byte-order mark, the Unicode space separators and the line terminators |
| AppVersion.TokenRunEnd | scripts/get-app-version.js:36 | `[A-Z0-9\-]+` under the `i` flag takes the maximal run of letters, digits and dashes |
| AppVersion.DigitsThenDot | scripts/get-app-version.js:32 | `[0-9]+\.` matches a non-empty digit run followed by a dot |
| AppVersion.VersionRuns | scripts/get-app-version.js:32 | the four digit runs of a version, separated by dots, the last one maximal |
| AppVersion.QuadFromRuns | scripts/get-app-version.js:32 | the text spanned by the four runs splits at dots into four digit groups |
| AppVersion.VersionAtIsQuad | scripts/get-app-version.js:32 | a group captured by the version expression is a dotted quad |
| AppVersion.VersionAt | scripts/get-app-version.js:32 | the capture group of the version expression at a position: the label in any case, the separators, then four dotted digit runs; none when one part is missing |
| AppVersion.ServerAt | scripts/get-app-version.js:36 | a server match at a position captures a non-empty run of letters, digits and dashes; where the run starts and ends is stated by `ServerGroupMaximal` |
| AppVersion.FirstMatch | scripts/get-app-version.js:32-36 | `match` without `g` finds the leftmost position where the expression matches, or none when it matches nowhere |
| AppVersion.FirstMatchNoLater | scripts/get-app-version.js:32 | a match anywhere means the leftmost match is at or before it |
| AppVersion.ExtractVersion | scripts/get-app-version.js:32-33 | the group of the leftmost version match, `Unknown` when there is none |
| AppVersion.ExtractServer | scripts/get-app-version.js:36-37 | the group of the leftmost server match, `Unknown` when there is none |
| AppVersion.GetAppVersion | scripts/get-app-version.js:13-47 | when a step throws, the result is `Unknown`, `Unknown` and the configured URL; otherwise the URL is the page's |
| AppVersion.VersionShape | scripts/get-app-version.js:32-33 | the version is `Unknown` or a dotted quad |
| AppVersion.UnknownIsNotAQuad | scripts/get-app-version.js:33 | the fallback `Unknown` is never a dotted quad, so the two outcomes are told apart |
| AppVersion.VersionLeftmost | scripts/get-app-version.js:32-33 | a version is found exactly when the expression matches somewhere, and it is the group of the leftmost match |
| AppVersion.VersionGroupMaximal | scripts/get-app-version.js:32 | a match at a position is the label, then the whole run of separators, then the group starting right there; the character after the group is not a digit, so a fifth `.N` group is never included |
| AppVersion.ServerShape | scripts/get-app-version.js:36-37 | the server is `Unknown` or a non-empty run of letters, digits and dashes |
| AppVersion.ServerLeftmost | scripts/get-app-version.js:36-37 | `match` finds a server exactly when the expression matches at some position; otherwise the server is `Unknown` |
| AppVersion.ServerGroupMaximal | scripts/get-app-version.js:36-37 | when it matches, the server is the group of the leftmost `Server` label (case-insensitive), with no match before it; the group starts right after the whole `[:\s]` run that follows the label, and is the whole `[A-Z0-9\-]` run from there |
| AppVersion.FooterExample | scripts/get-app-version.js:10 | the footer `Version: 26.3.9488.204` gives `26.3.9488.204` |
| RcmDashboard.FoundKeywords | pages/admin2/RCMDashboardPage.ts:206-211 | no more keywords are reported than listed |
| RcmDashboard.FoundKeywordsMembers | pages/admin2/RCMDashboardPage.ts:206-211 | a keyword is reported exactly when it is listed and occurs in the lower-cased text |
| RcmDashboard.FoundKeywordsNoDuplicates | pages/admin2/RCMDashboardPage.ts:206-211 | a list without repeats gives a report without repeats |
| RcmDashboard.ErrorKeywordsDistinct | pages/admin2/RCMDashboardPage.ts:188-199 | the keyword list has no repeats |
| RcmDashboard.ErrorKeywordsNonEmpty | pages/admin2/RCMDashboardPage.ts:188-199 | no keyword is empty |
| RcmDashboard.NullTextReportsNothing | pages/admin2/RCMDashboardPage.ts:202-203 | a `null` body becomes `''`, in which no non-empty keyword occurs |
| RcmDashboard.NullBodyReportsNoKeyword | pages/admin2/RCMDashboardPage.ts:202-211 | a page whose body text is `null` reports no keyword |
| RcmDashboard.ConnectionErrorReportsError | pages/admin2/RCMDashboardPage.ts:188-211 | when `connection error` is reported, `error` is too |
| RcmDashboard.ScanKeywords | pages/admin2/RCMDashboardPage.ts:206-211 | the keyword loop reports the listed keywords found, in list order |
| RcmDashboard.Entry | pages/admin2/RCMDashboardPage.ts:238-243 | an element contributes one entry exactly when it is visible with non-blank text |
| RcmDashboard.FromProbes | pages/admin2/RCMDashboardPage.ts:234-245 | no more entries than matched elements |
| RcmDashboard.FromProbesComplete | pages/admin2/RCMDashboardPage.ts:234-245 | every visible element with non-blank text is reported under its selector, trimmed |
| RcmDashboard.FromProbesSound | pages/admin2/RCMDashboardPage.ts:234-245 | every entry is the trimmed text of a visible element of the selector with non-blank text |
| RcmDashboard.Collected | pages/admin2/RCMDashboardPage.ts:229-247 | the entries of all selectors, selector by selector and within one by element index |
| RcmDashboard.CollectFromSelector | pages/admin2/RCMDashboardPage.ts:234-245 | the inner loop collects the entries of one selector in index order |
| RcmDashboard.CollectedComplete | pages/admin2/RCMDashboardPage.ts:229-247 | every visible element with non-blank text of every selector is reported |
| RcmDashboard.CollectedSound | pages/admin2/RCMDashboardPage.ts:229-247 | every reported entry comes from a visible element with non-blank text of one of the selectors |
| RcmDashboard.Texts | pages/admin2/RCMDashboardPage.ts:241-242 | `errorMessages` holds the texts of `errorElements`, index by index |
| RcmDashboard.CollectErrorElements | pages/admin2/RCMDashboardPage.ts:226-247 | the outer loop collects by selector, then by index, and keeps `errorMessages` in step with `errorElements` |
| RcmDashboard.ErrorReport | pages/admin2/RCMDashboardPage.ts:182-257 | the object `checkForErrorMessages` returns: the keywords found in the lower-cased body text, the collected elements and their texts, and `hasError` when either is non-empty |
| RcmDashboard.CheckForErrorMessages | pages/admin2/RCMDashboardPage.ts:182-257 | the report is `ErrorReport(page)`; `hasError` holds exactly when a keyword or an element was found; there are as many messages as elements |
| RcmDashboard.ErrorReportProperties | pages/admin2/RCMDashboardPage.ts:188-249 | keywords are exactly the listed ones found, without repeats; each message is the trimmed, non-empty text of its element, under a listed selector; every visible element with text is collected |
| RcmDashboard.GetErrorText | pages/admin2/RCMDashboardPage.ts:262-283 | the early-return loop gives the trimmed text of the first selector showing something, else `null` |
| RcmDashboard.FirstErrorText | pages/admin2/RCMDashboardPage.ts:270-282 | the trimmed text of the first selector whose first element is visible with text, `null` when there is none |
| RcmDashboard.FirstErrorTextIsFirst | pages/admin2/RCMDashboardPage.ts:270-282 | `null` exactly when no selector shows anything; otherwise the text of a selector that shows something, with no earlier one showing anything |
| RcmDashboard.IsIframeErrorMessageVisible | pages/admin2/RCMDashboardPage.ts:289-307 | visible within the wait, or else present with non-blank text and a display other than `none` |
| RcmDashboard.GetIframeErrorMessage | pages/admin2/RCMDashboardPage.ts:313-321 | a message exactly when its own visibility check passes and its own later `textContent()` read is non-`null` with non-blank text; the message is that text trimmed |
| RcmDashboard.HasExpectedText | pages/admin2/RCMDashboardPage.ts:339-343 | the message of `getIframeErrorMessage`, asked only when the first visibility check passes, equals the expected sentence |
| RcmDashboard.ExpectedTextIff | pages/admin2/RCMDashboardPage.ts:339-343 | `hasExpectedText` holds exactly when both visibility checks pass and the later text read is the expected sentence once trimmed |
| RcmDashboard.ExpectedTextSteadyPage | pages/admin2/RCMDashboardPage.ts:339-343 | when the element does not change between the reads, `hasExpectedText` holds exactly when it counts as visible and its trimmed text is the expected sentence |
| RcmDashboard.ValidateRcmDashboardIframe | pages/admin2/RCMDashboardPage.ts:110-155 | `hasCorrectName` and `isTableauIframe` are never both true; the Tableau branch is taken only without a correctly named iframe; presence and visibility come from the branch taken |
| BulkScanning.FirstVisible | pages/patient/BulkScanningPage.ts:536-545 | the index found is visible and no earlier entry is; none when no entry is visible |
| BulkScanning.FirstVisibleIff | pages/patient/BulkScanningPage.ts:536-545 | an entry is found exactly when some entry is visible, and it is the lowest-indexed visible one |
| BulkScanning.BulkScanningPage.SelectDescription | pages/patient/BulkScanningPage.ts:353-363 | true exactly when `aria-disabled` is not `"true"`; then the field and option `optionIndex - 1` are clicked, otherwise nothing |
| BulkScanning.BulkScanningPage.SelectCategory | pages/patient/BulkScanningPage.ts:368-378 | the same guard and clicks for the category dropdown |
| BulkScanning.DropdownGuard | pages/patient/BulkScanningPage.ts:353-378 | a disabled dropdown gets no click; the default index picks the first option |
| BulkScanning.BulkScanningPage.FillLastName | pages/patient/BulkScanningPage.ts:383-390 | a disabled field gives false and is unchanged; otherwise it holds the value and the result is true; no click is made, so the guarded-click invariant is kept |
| BulkScanning.BulkScanningPage.FillDob | pages/patient/BulkScanningPage.ts:395-402 | the same for the date-of-birth field |
| BulkScanning.BulkScanningPage.FillNotes | pages/patient/BulkScanningPage.ts:407-414 | the same for the notes field |
| BulkScanning.BulkScanningPage.UploadDocument | pages/patient/BulkScanningPage.ts:302-312 | the Upload button is clicked, then the file is set on the input |
| BulkScanning.BulkScanningPage.SelectFirstDocument | pages/patient/BulkScanningPage.ts:334-348 | true exactly when a row exists; then one click, forced exactly when the normal click threw |
| BulkScanning.FirstDocumentClickedOnce | pages/patient/BulkScanningPage.ts:334-348 | the first row is clicked exactly once when it exists, forced only after a thrown normal click |
| BulkScanning.BulkScanningPage.SelectPatDocs | pages/patient/BulkScanningPage.ts:527-548 | the first visible entry is clicked and no other; false exactly when none is visible |
| BulkScanning.BulkScanningPage.ClickSearch | pages/patient/BulkScanningPage.ts:419-430 | true exactly when the button is present and visible, and only then is it clicked |
| BulkScanning.BulkScanningPage.ClickSave | pages/patient/BulkScanningPage.ts:435-468 | the overlay button is tried first and the fallback `saveButton` only when the overlay one is absent or its steps threw; the clicks and result are `ClickSaveClicks` and `ClickSaveResult` |
| BulkScanning.ClickSaveSound | pages/patient/BulkScanningPage.ts:435-468 | true only after a Save click whose steps all ran; the fallback `saveButton` is never clicked after the overlay one completed; no button gives false and no click |
| BulkScanning.ClickSaveClicks | pages/patient/BulkScanningPage.ts:435-468 | the Save clicks: the overlay button when present, then the fallback `saveButton` only when the overlay one is absent or its steps threw |
| BulkScanning.ClickSaveResult | pages/patient/BulkScanningPage.ts:435-468 | true when the overlay button's steps completed, or the fallback `saveButton` is present and its steps completed |
| BulkScanning.CounterValue | pages/patient/BulkScanningPage.ts:562-570 | 0 without a badge; otherwise `parseInt` of the trimmed text, or of `0` when it is blank, with `NaN` read as 0 |
| BulkScanning.BulkScanningPage.GetDocumentCounterValue | pages/patient/BulkScanningPage.ts:562-570 | the counter read from the badge the page shows |
| BulkScanning.CounterFallsBackToZero | pages/patient/BulkScanningPage.ts:562-570 | no badge, a blank badge, a badge starting with neither a digit nor a sign, or a sign followed by no digit reads 0 |
| BulkScanning.CounterReadsLeadingNumber | pages/patient/BulkScanningPage.ts:562-570 | a badge whose trimmed text starts with the digits of `n`, followed by a non-digit or nothing, reads `n` |
| BulkScanning.CounterReadsSignedNumber | pages/patient/BulkScanningPage.ts:562-570 | a badge whose trimmed text is `-` or `+` and then the digits of `n`, followed by a non-digit or nothing, reads `-n` or `n` |
| BulkScanning.BulkScanningPage.UploadAndPrepareDocument | pages/patient/BulkScanningPage.ts:670-678 | upload, then the first row; description and category only when a row was selected; the result is the selection |
| JsString.ToLower | scripts/generate-allure-environment.js:25 | `toLowerCase` keeps the length and lowers each ASCII letter |
| JsString.TrimSlice | pages/admin2/RCMDashboardPage.ts:240-241 | `trim` leaves a slice that neither starts nor ends with white space, and is empty exactly when the text is all white space |
| JsString.TrimIdempotent | pages/admin2/RCMDashboardPage.ts:240-242 | trimming trimmed text changes nothing |
| JsString.ContainsIff | scripts/set-app-version.js:34 | `includes` holds exactly when the text occurs at some index |
| JsString.Split | scripts/set-app-version.js:38 | `split` gives at least one part and no part holds the separator |
| JsString.JoinSplit | scripts/set-app-version.js:38-43 | joining the parts of a split gives back the text |
| JsString.SplitJoin | scripts/generate-allure-environment.js:63-65 | splitting a join of separator-free parts gives back the parts |
| JsString.JoinSplitPrefix | scripts/generate-allure-environment.js:41 | joining the first parts of a split gives a prefix of the text |
| JsString.JoinSeparatorCount | scripts/generate-allure-environment.js:41 | a join of `n` separator-free parts holds `n - 1` separators |
| JsString.PadStart | utils/testDataHelpers.ts:15 | `padStart` fills on the left up to the width and keeps the text at the end |
| JsString.DigitsValueOfNatToString | utils/testDataHelpers.ts:15 | `toString` of a natural reads back as the natural |
| JsString.ParseIntOfNatToString | pages/patient/BulkScanningPage.ts:567 | `parseInt(_, 10)` reads the digits of a natural back, whatever non-digit text follows |
| JsString.ParseIntOfSignedNatToString | pages/patient/BulkScanningPage.ts:567 | `parseInt` reads a sign and the digits of a natural as the signed number, whatever non-digit text follows |
| JsString.ParseIntOfBareSign | pages/patient/BulkScanningPage.ts:567 | a sign followed by no digit parses to `NaN` |

## Left out

- Browser automation: launching Chromium, navigation, waits, pauses, frame locators and
  dialog handlers are not modelled. The page objects take what Playwright reports as inputs.
  The footer parser takes the footer text, or its absence when a step threw.
- Playwright calls without `.catch` are taken to succeed. This covers the forced click of
  `selectFirstDocument`, the option clicks, `fill`, `setInputFiles` and the click of
  `clickSearch`.
- BulkScanning.BulkScanningPage.ClickSave: each `try` of `clickSave` is one input with three
  outcomes (completes, throws before the click, throws after it). Which call inside the
  `try` threw is not modelled. The overlay button and the fallback `saveButton` locator are
  independent inputs. In the page, `saveButton` lists the overlay selector first, so it can
  resolve to the overlay button again. The model therefore admits some combinations the page
  cannot produce, for example an overlay button present and no fallback.
- RcmDashboard.HasExpectedText: each visibility check and the later `textContent()` read
  are separate inputs. Within one visibility check, the `count`, `textContent()` and
  `evaluate` reads are one snapshot of the element.
- RcmDashboard.ValidateRcmDashboardIframe: the diagnostic `details` string, and the iframe
  `id` and `src` it reports, are left out.
- `isRcmDashboardIframePresent`, `isRcmDashboardIframeVisible`, `getAllIframes` and the
  attribute read-out of `validateIframeErrorMessage` are not part of this model. They only
  forward Playwright results.
- JsString.ToLower, JsString.TrimSlice: `toLowerCase` and `trim` are modelled over ASCII.
  - `toLowerCase` lowers only `A`–`Z`.
  - White space is space, tab, LF, VT, FF and CR.
  - Unicode spaces, the byte-order mark and non-ASCII case mappings are not handled.
- `parseInt` is modelled for an optional sign followed by decimal digits. Integers are
  unbounded, so the loss of precision above 2^53 is not modelled.
- SetAppVersion.UpdateWritesVersion, SetAppVersion.UpdateIdempotent: proved for versions
  without `$`. For such versions the `replace` call inserts the version literally. `Expand`
  does model the `$$`, `$&`, `` $` `` and `$'` patterns, but no property is proved for
  versions that contain them.
- The alias map is modelled as its six literal entries. Keys that JavaScript would inherit
  from `Object.prototype`, such as `constructor`, are not modelled.
- The generated file's inputs are parameters: the date, `process.version`,
  `process.platform` and the environment variables. The outcome of `getAppVersion` is also a
  parameter, `None` when the call threw.
- Writing and reading files is not modelled, nor is the console output of any script.
- Email sending, the HTML and text templates, and the floating-point pass rate with `toFixed`
  in `scripts/send-email-report.js` are not modelled.
- EmailReport.ToFailedTest: a JSON field that is not a string is read as absent. So a
  truthy non-string `fullName` or `statusDetails.message`, such as a number, falls back as
  if it were missing, where `||` would keep it.
- `JSON.parse` is replaced by its outcome for each file: unreadable, the literal `null`, or a
  record of the fields read. A `null` record counts in `total` and then throws on
  `result.status`, as in the code.
- The random draws of `utils/testDataHelpers.ts` are parameters in their ranges.
  `Math.random` itself is not modelled.
- The other page objects, the test specifications, the fixture generators, the report
  scripts, the debug scripts and `config.ts` are not part of this model.
