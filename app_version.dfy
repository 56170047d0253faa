/** The footer parsing of scripts/get-app-version.js. The script opens the login page and
    reads the footer text; the two regular expressions
    `/Version[:\s]*([0-9]+\.[0-9]+\.[0-9]+\.[0-9]+)/i` and `/Server[:\s]*([A-Z0-9\-]+)/i`
    then pick out the version and the server name. Launching the browser and loading the
    page are replaced by their outcome: the footer text, or `None` when a step threw.

    Both expressions have one deterministic reading at each start position: the separator
    class `[:\s]` shares no character with digits or with the token class, and each `+` run
    is followed by a character outside its own class (or by nothing), so backtracking never
    finds a shorter run that succeeds. A match at a position is therefore "label, maximal
    separators, maximal runs", and `String.prototype.match` returns the leftmost one. */
module AppVersion {
  import opened Wrappers
  import opened JsString

  const Unknown := "Unknown"
  const DefaultAppUrl := "https://devpvpm.practicevelocity.com/26_3/loginpage.aspx"

  datatype AppInfo = AppInfo(version: string, server: string, url: string)

  datatype Pattern = VersionPattern | ServerPattern

  /** A match of one of the patterns: where it starts and what its capture group holds. */
  datatype Found = Found(at: nat, group: string)

  /** The case-insensitive word `word` (given in lower case) occurs at `i`. */
  predicate LabelAt(s: string, i: nat, word: string) {
    i + |word| <= |s| && ToLower(s[i..i + |word|]) == word
  }

  /** `\s` of a JavaScript regular expression: the white space and line terminators of
      ECMAScript, which include the no-break space, the byte-order mark and the Unicode
      space separators. */
  predicate IsRegexSpace(c: char) {
    IsWhitespace(c) || c == '\U{A0}' || c == '\U{1680}' || ('\U{2000}' <= c <= '\U{200A}') ||
    c == '\U{2028}' || c == '\U{2029}' || c == '\U{202F}' || c == '\U{205F}' ||
    c == '\U{3000}' || c == '\U{FEFF}'
  }

  /** `[:\s]`. */
  predicate IsSeparator(c: char) {
    c == ':' || IsRegexSpace(c)
  }

  /** `[A-Z0-9\-]` under the `i` flag. */
  predicate IsTokenChar(c: char) {
    IsAsciiLetter(c) || IsDigit(c) || c == '-'
  }

  predicate AllDigits(s: string) {
    |s| > 0 && forall i :: 0 <= i < |s| ==> IsDigit(s[i])
  }

  /** Four non-empty runs of digits joined by three dots. */
  predicate IsDottedQuad(v: string) {
    var groups := Split(v, '.');
    |groups| == 4 && forall k :: 0 <= k < 4 ==> AllDigits(groups[k])
  }

  /** End of the maximal run of `[:\s]` from `from`. */
  function SkipSeparators(s: string, from: nat): (e: nat)
    requires from <= |s|
    ensures from <= e <= |s|
    ensures forall i :: from <= i < e ==> IsSeparator(s[i])
    ensures e == |s| || !IsSeparator(s[e])
    decreases |s| - from
  {
    if from < |s| && IsSeparator(s[from]) then SkipSeparators(s, from + 1) else from
  }

  /** End of the maximal run of `[A-Z0-9\-]` from `from`. */
  function TokenRunEnd(s: string, from: nat): (e: nat)
    requires from <= |s|
    ensures from <= e <= |s|
    ensures forall i :: from <= i < e ==> IsTokenChar(s[i])
    ensures e == |s| || !IsTokenChar(s[e])
    decreases |s| - from
  {
    if from < |s| && IsTokenChar(s[from]) then TokenRunEnd(s, from + 1) else from
  }

  /** `[0-9]+\.` from `from`: the end of the digit run when at least one digit is followed by a dot. */
  function DigitsThenDot(s: string, from: nat): (e: Option<nat>)
    requires from <= |s|
    ensures e.Some? ==> from < e.value < |s| && s[e.value] == '.' && AllDigits(s[from..e.value])
  {
    var e := DigitRunEnd(s, from);
    if e > from && e < |s| && s[e] == '.' then Some(e) else None
  }

  /** Where the three dot-terminated digit runs and the final digit run of a version end. */
  datatype Runs = Runs(e1: nat, e2: nat, e3: nat, e4: nat)

  /** No digit follows position `e`: a digit run that ends at `e` is maximal. */
  predicate RunEndsAt(s: string, e: int) {
    0 <= e <= |s| && (e == |s| || !IsDigit(s[e]))
  }

  /** `[0-9]+\.[0-9]+\.[0-9]+\.[0-9]+` from `k`, each run as long as it goes. */
  function VersionRuns(s: string, k: nat): (r: Option<Runs>)
    requires k <= |s|
    ensures r.Some? ==>
      k < r.value.e1 < r.value.e2 < r.value.e3 < r.value.e4 <= |s| &&
      s[r.value.e1] == '.' && s[r.value.e2] == '.' && s[r.value.e3] == '.' &&
      AllDigits(s[k..r.value.e1]) && AllDigits(s[r.value.e1 + 1..r.value.e2]) &&
      AllDigits(s[r.value.e2 + 1..r.value.e3]) && r.value.e3 + 1 < r.value.e4 &&
      (forall i :: r.value.e3 + 1 <= i < r.value.e4 ==> IsDigit(s[i])) &&
      RunEndsAt(s, r.value.e4)
  {
    match DigitsThenDot(s, k)
    case None => None
    case Some(e1) =>
      match DigitsThenDot(s, e1 + 1)
      case None => None
      case Some(e2) =>
        match DigitsThenDot(s, e2 + 1)
        case None => None
        case Some(e3) =>
          var e4 := DigitRunEnd(s, e3 + 1);
          if e4 == e3 + 1 then None else Some(Runs(e1, e2, e3, e4))
  }

  /** The capture group of the version expression when it matches at `i`. */
  function VersionAt(s: string, i: nat): Option<string>
    requires i <= |s|
  {
    if !LabelAt(s, i, "version") then None
    else
      var k := SkipSeparators(s, i + 7);
      match VersionRuns(s, k)
      case None => None
      case Some(r) => Some(s[k..r.e4])
  }

  lemma DigitsHaveNoDot(g: string)
    requires AllDigits(g)
    ensures '.' !in g
  {
  }

  /** A slice that crosses a dot at `e` is the part before it, the dot, and the part after. */
  lemma SliceAtDot(s: string, k: nat, e: nat, f: nat)
    requires k <= e < f <= |s| && s[e] == '.'
    ensures s[k..f] == s[k..e] + ['.'] + s[e + 1..f]
  {
    assert s[e..f] == [s[e]] + s[e + 1..f];
    assert s[k..f] == s[k..e] + s[e..f];
  }

  /** Joining four parts on a dot. */
  lemma JoinFour(g0: string, g1: string, g2: string, g3: string)
    ensures Join([g0, g1, g2, g3], '.') == g0 + ['.'] + (g1 + ['.'] + (g2 + ['.'] + g3))
  {
    JoinStep(g2, [g3], '.');
    JoinStep(g1, [g2, g3], '.');
    assert [g0] + [g1, g2, g3] == [g0, g1, g2, g3];
    JoinStep(g0, [g1, g2, g3], '.');
  }

  /** The text from `k` to `e4` is its four runs with the dots between them. */
  lemma QuadSlice(s: string, k: nat, e1: nat, e2: nat, e3: nat, e4: nat)
    requires k < e1 < e2 < e3 < e4 <= |s|
    requires s[e1] == '.' && s[e2] == '.' && s[e3] == '.'
    ensures s[k..e4] == s[k..e1] + ['.'] + (s[e1 + 1..e2] + ['.'] + (s[e2 + 1..e3] + ['.'] + s[e3 + 1..e4]))
  {
    SliceAtDot(s, e2 + 1, e3, e4);
    SliceAtDot(s, e1 + 1, e2, e4);
    SliceAtDot(s, k, e1, e4);
  }

  /** Four digit runs separated by single dots make a dotted quad. */
  lemma QuadFromRuns(s: string, k: nat, e1: nat, e2: nat, e3: nat, e4: nat)
    requires k < e1 < e2 < e3 < e4 <= |s|
    requires s[e1] == '.' && s[e2] == '.' && s[e3] == '.'
    requires AllDigits(s[k..e1]) && AllDigits(s[e1 + 1..e2]) && AllDigits(s[e2 + 1..e3])
    requires e3 + 1 < e4 && forall i :: e3 + 1 <= i < e4 ==> IsDigit(s[i])
    ensures IsDottedQuad(s[k..e4])
  {
    var groups := [s[k..e1], s[e1 + 1..e2], s[e2 + 1..e3], s[e3 + 1..e4]];
    assert AllDigits(groups[3]) by {
      forall i | 0 <= i < |groups[3]| ensures IsDigit(groups[3][i]) {
        assert groups[3][i] == s[e3 + 1 + i];
      }
    }
    forall j | 0 <= j < 4 ensures '.' !in groups[j] {
      DigitsHaveNoDot(groups[j]);
    }
    assert Join(groups, '.') == s[k..e4] by {
      JoinFour(groups[0], groups[1], groups[2], groups[3]);
      QuadSlice(s, k, e1, e2, e3, e4);
    }
    SplitJoin(groups, '.');
  }

  /** Every version match is a dotted quad. */
  lemma VersionAtIsQuad(s: string, i: nat)
    requires i <= |s| && VersionAt(s, i).Some?
    ensures IsDottedQuad(VersionAt(s, i).value)
  {
    var k := SkipSeparators(s, i + 7);
    var r := VersionRuns(s, k).value;
    QuadFromRuns(s, k, r.e1, r.e2, r.e3, r.e4);
  }

  /** The capture group of the server expression when it matches at `i`. */
  function ServerAt(s: string, i: nat): (m: Option<string>)
    requires i <= |s|
    ensures m.Some? ==> |m.value| > 0 && forall j :: 0 <= j < |m.value| ==> IsTokenChar(m.value[j])
  {
    if !LabelAt(s, i, "server") then None
    else
      var k := SkipSeparators(s, i + 6);
      var e := TokenRunEnd(s, k);
      if e == k then None else Some(s[k..e])
  }

  function MatchAt(p: Pattern, s: string, i: nat): Option<string>
    requires i <= |s|
  {
    match p
    case VersionPattern => VersionAt(s, i)
    case ServerPattern => ServerAt(s, i)
  }

  /** `s.match(p)` for a pattern without the `g` flag: the leftmost match from `from` on. */
  function FirstMatch(p: Pattern, s: string, from: nat): (m: Option<Found>)
    requires from <= |s|
    ensures m.Some? ==> from <= m.value.at <= |s| && MatchAt(p, s, m.value.at) == Some(m.value.group)
    ensures m.Some? ==> forall j :: from <= j < m.value.at ==> MatchAt(p, s, j).None?
    ensures m.None? ==> forall j :: from <= j <= |s| ==> MatchAt(p, s, j).None?
    decreases |s| - from
  {
    match MatchAt(p, s, from)
    case Some(g) => Some(Found(from, g))
    case None => if from == |s| then None else FirstMatch(p, s, from + 1)
  }

  /** `versionMatch ? versionMatch[1] : 'Unknown'`. */
  function ExtractVersion(footer: string): string {
    match FirstMatch(VersionPattern, footer, 0)
    case Some(f) => f.group
    case None => Unknown
  }

  /** `serverMatch ? serverMatch[1] : 'Unknown'`. */
  function ExtractServer(footer: string): string {
    match FirstMatch(ServerPattern, footer, 0)
    case Some(f) => f.group
    case None => Unknown
  }

  /** `process.env.APP_URL || 'https://…/loginpage.aspx'`. */
  function AppUrl(appUrlEnv: Option<string>): string {
    if appUrlEnv.Some? && appUrlEnv.value != "" then appUrlEnv.value else DefaultAppUrl
  }

  /** `getAppVersion()`: `footer` is the footer text, or `None` when loading the page or
      reading the footer threw; `pageUrl` is `page.url()` after loading. */
  function GetAppVersion(footer: Option<string>, pageUrl: string, appUrlEnv: Option<string>): (info: AppInfo)
    ensures footer.None? ==> info == AppInfo(Unknown, Unknown, AppUrl(appUrlEnv))
    ensures footer.Some? ==> info.url == pageUrl
  {
    match footer
    case None => AppInfo(Unknown, Unknown, AppUrl(appUrlEnv))
    case Some(text) => AppInfo(ExtractVersion(text), ExtractServer(text), pageUrl)
  }

  // ---------------------------------------------------------------- properties

  /** The version is `Unknown` or a dotted quad: three dots, digits everywhere else. */
  lemma VersionShape(footer: string)
    ensures ExtractVersion(footer) == Unknown || IsDottedQuad(ExtractVersion(footer))
  {
    var m := FirstMatch(VersionPattern, footer, 0);
    if m.Some? {
      assert MatchAt(VersionPattern, footer, m.value.at) == Some(m.value.group);
      VersionAtIsQuad(footer, m.value.at);
    }
  }

  /** `Unknown` has no dot, so it is never taken for a version. */
  lemma UnknownIsNotAQuad()
    ensures !IsDottedQuad(Unknown)
  {
    assert '.' !in Unknown;
    SplitJoin([Unknown], '.');
  }

  /** Whenever a pattern matches at `i`, `match` finds a match, and it starts at or before `i`. */
  lemma FirstMatchNoLater(p: Pattern, s: string, i: nat)
    requires i <= |s| && MatchAt(p, s, i).Some?
    ensures FirstMatch(p, s, 0).Some? && FirstMatch(p, s, 0).value.at <= i
  {
  }

  /** A version is found exactly when the expression matches somewhere, and it is the group of
      the leftmost match. */
  lemma {:induction false} VersionLeftmost(footer: string)
    ensures (exists i :: 0 <= i <= |footer| && VersionAt(footer, i).Some?) <==> ExtractVersion(footer) != Unknown
    ensures forall i :: 0 <= i <= |footer| && VersionAt(footer, i).Some? ==>
      exists j :: 0 <= j <= i && VersionAt(footer, j) == Some(ExtractVersion(footer))
  {
    var m := FirstMatch(VersionPattern, footer, 0);
    forall i | 0 <= i <= |footer| && VersionAt(footer, i).Some?
      ensures m.Some? && m.value.at <= i
    {
      assert MatchAt(VersionPattern, footer, i).Some?;
      FirstMatchNoLater(VersionPattern, footer, i);
    }
    if m.Some? {
      var at := m.value.at;
      assert MatchAt(VersionPattern, footer, at) == Some(m.value.group);
      assert VersionAt(footer, at) == Some(ExtractVersion(footer));
      VersionAtIsQuad(footer, at);
      UnknownIsNotAQuad();
    }
  }

  /** A match at `i` is the label, the whole run of separators after it, and the group,
      which starts there; the fourth group is the whole digit run: the character after the
      group is not a digit, so a fifth `.N` group is never part of the version. */
  lemma {:induction false} VersionGroupMaximal(s: string, i: nat)
    requires i <= |s| && VersionAt(s, i).Some?
    ensures LabelAt(s, i, "version")
    ensures var k := SkipSeparators(s, i + 7);
      (forall j :: i + 7 <= j < k ==> IsSeparator(s[j])) && !IsSeparator(s[k]) &&
      OccursAt(s, VersionAt(s, i).value, k) && RunEndsAt(s, k + |VersionAt(s, i).value|)
  {
    var k := SkipSeparators(s, i + 7);
    var r := VersionRuns(s, k).value;
    var v := VersionAt(s, i).value;
    assert v == s[k..r.e4];
    assert OccursAt(s, v, k) && RunEndsAt(s, k + |v|);
  }

  /** The server name is `Unknown` or a non-empty run of letters, digits and dashes. */
  lemma ServerShape(footer: string)
    ensures var server := ExtractServer(footer);
      server == Unknown || (|server| > 0 && forall j :: 0 <= j < |server| ==> IsTokenChar(server[j]))
  {
  }

  /** A server name is found exactly when the expression matches somewhere; otherwise the
      result is `Unknown`. */
  lemma ServerLeftmost(footer: string)
    ensures FirstMatch(ServerPattern, footer, 0).Some? <==>
      exists i :: 0 <= i <= |footer| && ServerAt(footer, i).Some?
    ensures FirstMatch(ServerPattern, footer, 0).None? ==> ExtractServer(footer) == Unknown
  {
    if exists i :: 0 <= i <= |footer| && ServerAt(footer, i).Some? {
      var i :| 0 <= i <= |footer| && ServerAt(footer, i).Some?;
      FirstMatchNoLater(ServerPattern, footer, i);
    }
  }

  /** The server name comes from the leftmost `Server` label: it starts right after the whole
      run of `[:\s]` that follows the label and runs to the end of its `[A-Z0-9\-]` run. */
  lemma ServerGroupMaximal(footer: string)
    requires FirstMatch(ServerPattern, footer, 0).Some?
    ensures var m := FirstMatch(ServerPattern, footer, 0).value;
      var server := ExtractServer(footer);
      server == m.group && LabelAt(footer, m.at, "server") &&
      (forall j :: 0 <= j < m.at ==> ServerAt(footer, j).None?) &&
      var k := SkipSeparators(footer, m.at + 6);
      (forall j :: m.at + 6 <= j < k ==> IsSeparator(footer[j])) &&
      k < |footer| && !IsSeparator(footer[k]) &&
      OccursAt(footer, server, k) &&
      (k + |server| == |footer| || !IsTokenChar(footer[k + |server|]))
  {
    var m := FirstMatch(ServerPattern, footer, 0).value;
    assert ServerAt(footer, m.at) == Some(m.group);
    forall j | 0 <= j < m.at ensures ServerAt(footer, j).None? {
      assert MatchAt(ServerPattern, footer, j).None?;
    }
  }

  /** The footer text of the login page this script is written against. */
  const SampleFooter := "Version: 26.3.9488.204"

  lemma SampleFooterLabel()
    ensures LabelAt(SampleFooter, 0, "version") && SkipSeparators(SampleFooter, 7) == 9
  {
    var s := SampleFooter;
    assert ToLower(s[0..7]) == "version";
    assert IsSeparator(s[7]) && IsSeparator(s[8]) && !IsSeparator(s[9]);
  }

  /** The digit run of the sample footer from `from` ends at `e`. */
  lemma SampleFooterRun(from: nat, e: nat)
    requires (from, e) in {(9, 11), (12, 13), (14, 18), (19, 22)}
    ensures DigitRunEnd(SampleFooter, from) == e
  {
    DigitRunEndAt(SampleFooter, from, e);
  }

  /** The run of the sample footer from `from` ends in a dot at `e`. */
  lemma SampleFooterDot(from: nat, e: nat)
    requires (from, e) in {(9, 11), (12, 13), (14, 18)}
    ensures DigitsThenDot(SampleFooter, from) == Some(e)
  {
    SampleFooterRun(from, e);
  }

  lemma SampleFooterRuns()
    ensures VersionRuns(SampleFooter, 9) == Some(Runs(11, 13, 18, 22))
  {
    SampleFooterDot(9, 11);
    SampleFooterDot(12, 13);
    SampleFooterDot(14, 18);
    SampleFooterRun(19, 22);
  }

  lemma SampleFooterMatchesAtStart()
    ensures VersionAt(SampleFooter, 0) == Some(SampleFooter[9..22])
  {
    SampleFooterLabel();
    SampleFooterRuns();
  }

  /** The sample footer gives the version that follows its label. */
  lemma FooterExample()
    ensures ExtractVersion(SampleFooter) == "26.3.9488.204"
  {
    assert SampleFooter[9..22] == "26.3.9488.204";
    SampleFooterMatchesAtStart();
    assert MatchAt(VersionPattern, SampleFooter, 0) == Some("26.3.9488.204");
  }
}
