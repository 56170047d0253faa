/** The data side of scripts/generate-allure-environment.js: choosing and normalising the
    environment name, cutting the application URL down to its origin, and writing the
    `environment.properties` file of an Allure report as `key=value` lines. Environment
    variables, the command line, the Node version, the platform and the date are inputs
    (`None` for an unset variable); the call to `getAppVersion` is its outcome, `None` when
    it threw. */
module AllureEnvironment {
  import opened Wrappers
  import opened JsString
  import AppVersion

  /** JavaScript `value || fallback` on a string that may be undefined: `''` counts as absent. */
  function OrElse(value: Option<string>, fallback: string): string {
    if value.Some? && value.value != "" then value.value else fallback
  }

  const DefaultEnvironment := "Development"
  const DefaultBaseUrl := "https://devpvpm.practicevelocity.com"
  const DefaultBrowser := "Chromium"
  const PlaywrightVersion := "1.58.0"

  /** `process.argv[2] || process.env.TEST_ENV || 'Development'`. */
  function RawEnvironment(arg: Option<string>, testEnv: Option<string>): string {
    OrElse(arg, OrElse(testEnv, DefaultEnvironment))
  }

  /** The lower-case aliases of the three environments. */
  const EnvAliases: map<string, string> := map[
    "dev" := "Development",
    "development" := "Development",
    "staging" := "Staging",
    "stage" := "Staging",
    "prod" := "Production",
    "production" := "Production"
  ]

  const CanonicalNames: set<string> := {"Development", "Staging", "Production"}

  /** `envMap[environment.toLowerCase()] || environment`. Every value of the map is non-empty,
      so `||` falls back only when the lower-cased name is not a key. */
  function Normalize(env: string): string {
    var key := ToLower(env);
    if key in EnvAliases then EnvAliases[key] else env
  }

  // ---------------------------------------------------------------- environment properties

  /** The first non-empty of the argument and `TEST_ENV` is used, and there is always a name. */
  lemma RawEnvironmentChoice(arg: Option<string>, testEnv: Option<string>)
    ensures RawEnvironment(arg, testEnv) != ""
    ensures arg.Some? && arg.value != "" ==> RawEnvironment(arg, testEnv) == arg.value
    ensures (arg.None? || arg.value == "") && testEnv.Some? && testEnv.value != "" ==>
      RawEnvironment(arg, testEnv) == testEnv.value
    ensures (arg.None? || arg.value == "") && (testEnv.None? || testEnv.value == "") ==>
      RawEnvironment(arg, testEnv) == DefaultEnvironment
  {
  }

  /** The lower-cased spellings of the canonical names are themselves aliases of those names. */
  lemma CanonicalNamesAreAliases()
    ensures ToLower("Development") == "development"
    ensures ToLower("Staging") == "staging"
    ensures ToLower("Production") == "production"
  {
    assert ToLower("Development") == "development" by {
      forall i | 0 <= i < 11 ensures ToLower("Development")[i] == "development"[i] { }
    }
    assert ToLower("Staging") == "staging" by {
      forall i | 0 <= i < 7 ensures ToLower("Staging")[i] == "staging"[i] { }
    }
    assert ToLower("Production") == "production" by {
      forall i | 0 <= i < 10 ensures ToLower("Production")[i] == "production"[i] { }
    }
  }

  /** An alias, in any letter case, becomes its canonical name; any other name is kept as
      given, casing included. */
  lemma NormalizeCases(env: string)
    ensures ToLower(env) in EnvAliases ==> Normalize(env) in CanonicalNames
    ensures ToLower(env) in EnvAliases ==> Normalize(env) == EnvAliases[ToLower(env)]
    ensures ToLower(env) !in EnvAliases ==> Normalize(env) == env
  {
  }

  /** Which names end up as `Production`: exactly those that lower-case to `prod` or
      `production`. The same holds for the other two names and their aliases. */
  lemma {:induction false} NormalizeTo(env: string)
    ensures Normalize(env) == "Development" <==> ToLower(env) in {"dev", "development"}
    ensures Normalize(env) == "Staging" <==> ToLower(env) in {"staging", "stage"}
    ensures Normalize(env) == "Production" <==> ToLower(env) in {"prod", "production"}
  {
    CanonicalNamesAreAliases();
  }

  /** Normalising twice changes nothing more. */
  lemma {:induction false} NormalizeIdempotent(env: string)
    ensures Normalize(Normalize(env)) == Normalize(env)
  {
    CanonicalNamesAreAliases();
  }

  /** Only the letter case of the name matters for an alias. */
  lemma NormalizeIgnoresCase(a: string, b: string)
    requires ToLower(a) == ToLower(b) && ToLower(a) in EnvAliases
    ensures Normalize(a) == Normalize(b)
  {
  }

  // ---------------------------------------------------------------- base URL

  function Min(a: int, b: int): int {
    if a <= b then a else b
  }

  /** `url.split('/').slice(0, 3).join('/')`: scheme, the empty segment and the host. */
  function BaseUrl(url: string): (r: string)
    ensures StartsWith(url, r)
    ensures CountChar(r, '/') <= 2
  {
    var parts := Split(url, '/');
    var n := Min(3, |parts|);
    JoinSplitPrefix(url, '/', n);
    JoinSeparatorCount(parts[..n], '/');
    Join(parts[..n], '/')
  }

  /** The URL is kept whole exactly when it has at most two slashes. */
  lemma {:induction false} BaseUrlKeepsShortUrl(url: string)
    ensures BaseUrl(url) == url <==> CountChar(url, '/') <= 2
  {
    var parts := Split(url, '/');
    JoinSplit(url, '/');
    JoinSeparatorCount(parts, '/');
    if |parts| <= 3 {
      assert parts[..Min(3, |parts|)] == parts;
    }
  }

  /** A URL with three or more slashes is cut just before its third slash. */
  lemma {:induction false} BaseUrlCutsAtThirdSlash(url: string)
    ensures CountChar(url, '/') > 2 ==>
      |BaseUrl(url)| < |url| && url[|BaseUrl(url)|] == '/' && CountChar(BaseUrl(url), '/') == 2
  {
    var parts := Split(url, '/');
    JoinSplit(url, '/');
    JoinSeparatorCount(parts, '/');
    if CountChar(url, '/') > 2 {
      var r := Join(parts[..3], '/');
      assert BaseUrl(url) == r;
      assert parts == parts[..3] + parts[3..];
      JoinAppend(parts[..3], parts[3..], '/');
      assert url == r + ['/'] + Join(parts[3..], '/');
      assert url[|r|] == '/';
      JoinSeparatorCount(parts[..3], '/');
    }
  }

  /** Cutting an already cut URL changes nothing. */
  lemma {:induction false} BaseUrlIdempotent(url: string)
    ensures BaseUrl(BaseUrl(url)) == BaseUrl(url)
  {
    BaseUrlKeepsShortUrl(BaseUrl(url));
  }

  // ---------------------------------------------------------------- properties file

  datatype Property = Property(key: string, value: string)

  const Keys: seq<string> := ["Environment", "App.Version", "Server", "Browser", "Base.URL",
    "Node.Version", "Playwright.Version", "OS", "Test.Execution.Date"]

  /** Version, server and base URL after the `try` block: taken from `getAppVersion` when it
      returned, the defaults when it threw. */
  function Detected(appInfo: Option<AppVersion.AppInfo>, baseUrlEnv: Option<string>): (string, string, string) {
    match appInfo
    case None => (AppVersion.Unknown, AppVersion.Unknown, OrElse(baseUrlEnv, DefaultBaseUrl))
    case Some(info) => (info.version, info.server, BaseUrl(info.url))
  }

  /** The `properties` object, its entries in declaration order. */
  function Properties(arg: Option<string>, testEnv: Option<string>,
                      appInfo: Option<AppVersion.AppInfo>, baseUrlEnv: Option<string>,
                      browserEnv: Option<string>, nodeVersion: string, platform: string,
                      date: string): (props: seq<Property>)
    ensures |props| == |Keys| == 9
    ensures forall i :: 0 <= i < |props| ==> props[i].key == Keys[i]
  {
    var (version, server, baseUrl) := Detected(appInfo, baseUrlEnv);
    [ Property("Environment", Normalize(RawEnvironment(arg, testEnv))),
      Property("App.Version", version),
      Property("Server", server),
      Property("Browser", OrElse(browserEnv, DefaultBrowser)),
      Property("Base.URL", baseUrl),
      Property("Node.Version", nodeVersion),
      Property("Playwright.Version", PlaywrightVersion),
      Property("OS", platform),
      Property("Test.Execution.Date", date) ]
  }

  function Line(p: Property): string {
    p.key + "=" + p.value
  }

  function Lines(props: seq<Property>): (lines: seq<string>)
    ensures |lines| == |props|
    ensures forall i :: 0 <= i < |props| ==> lines[i] == Line(props[i])
  {
    seq(|props|, i requires 0 <= i < |props| => Line(props[i]))
  }

  /** `Object.entries(properties).map(([key, value]) => `${key}=${value}`).join('\n')`. */
  function Serialize(props: seq<Property>): string {
    Join(Lines(props), '\n')
  }

  /** What is written to the file: the serialisation followed by one newline. */
  function FileContent(props: seq<Property>): string {
    Serialize(props) + "\n"
  }

  predicate SingleLine(s: string) {
    '\n' !in s
  }

  predicate AllSingleLine(props: seq<Property>) {
    forall i :: 0 <= i < |props| ==> SingleLine(props[i].key) && SingleLine(props[i].value)
  }

  lemma LinesSingle(props: seq<Property>)
    requires AllSingleLine(props)
    ensures forall i :: 0 <= i < |props| ==> '\n' !in Lines(props)[i]
  {
    forall i | 0 <= i < |props| ensures '\n' !in Lines(props)[i] {
      assert Lines(props)[i] == props[i].key + "=" + props[i].value;
    }
  }

  /** When no key or value spans lines, reading the file back line by line gives one
      `key=value` line per property, in order, and nothing else. */
  lemma {:induction false} SerializeRoundTrip(props: seq<Property>)
    requires |props| >= 1 && AllSingleLine(props)
    ensures Split(Serialize(props), '\n') == Lines(props)
  {
    LinesSingle(props);
    SplitJoin(Lines(props), '\n');
  }

  /** The file holds exactly one newline per property: the separators plus the final one. */
  lemma {:induction false} FileContentNewlines(props: seq<Property>)
    requires |props| >= 1 && AllSingleLine(props)
    ensures CountChar(FileContent(props), '\n') == |props|
    ensures EndsWith(FileContent(props), "\n")
  {
    LinesSingle(props);
    JoinSeparatorCount(Lines(props), '\n');
    CountCharAppend(Serialize(props), "\n", '\n');
    assert CountChar("\n", '\n') == 1 by {
      assert "\n"[1..] == [];
    }
  }

  /** The generated file lists the normalised environment first and the fixed Playwright
      version seventh; without multi-line values it reads back as nine lines. */
  lemma {:induction false} GeneratedFile(arg: Option<string>, testEnv: Option<string>,
                                          appInfo: Option<AppVersion.AppInfo>, baseUrlEnv: Option<string>,
                                          browserEnv: Option<string>, nodeVersion: string, platform: string,
                                          date: string)
    requires var props := Properties(arg, testEnv, appInfo, baseUrlEnv, browserEnv, nodeVersion, platform, date);
      AllSingleLine(props)
    ensures var props := Properties(arg, testEnv, appInfo, baseUrlEnv, browserEnv, nodeVersion, platform, date);
      var lines := Split(Serialize(props), '\n');
      |lines| == 9 &&
      lines[0] == "Environment=" + Normalize(RawEnvironment(arg, testEnv)) &&
      lines[6] == "Playwright.Version=1.58.0" &&
      CountChar(FileContent(props), '\n') == 9
  {
    var props := Properties(arg, testEnv, appInfo, baseUrlEnv, browserEnv, nodeVersion, platform, date);
    PropertiesFirstAndSeventh(arg, testEnv, appInfo, baseUrlEnv, browserEnv, nodeVersion, platform, date);
    SerializeRoundTrip(props);
    FileContentNewlines(props);
    assert Lines(props)[0] == Line(props[0]);
    assert Lines(props)[6] == Line(props[6]);
  }

  lemma PropertiesFirstAndSeventh(arg: Option<string>, testEnv: Option<string>,
                                  appInfo: Option<AppVersion.AppInfo>, baseUrlEnv: Option<string>,
                                  browserEnv: Option<string>, nodeVersion: string, platform: string,
                                  date: string)
    ensures var props := Properties(arg, testEnv, appInfo, baseUrlEnv, browserEnv, nodeVersion, platform, date);
      props[0] == Property("Environment", Normalize(RawEnvironment(arg, testEnv))) &&
      props[6] == Property("Playwright.Version", PlaywrightVersion)
  {
  }
}
