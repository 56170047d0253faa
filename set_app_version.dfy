/** The update of `environment.properties` in scripts/set-app-version.js: when the content
    mentions `App.Version=`, every span from `App.Version=` to the end of its line is
    rewritten; otherwise a line `App.Version=<version>` is inserted after the first line that
    starts with `Environment=`, if there is one. Reading and writing the file are left out. */
module SetAppVersion {
  import opened Wrappers
  import opened JsString

  const Key := "App.Version="
  const EnvironmentPrefix := "Environment="

  /** The characters a regular expression's `.` does not match. */
  predicate IsLineTerminator(c: char) {
    c == '\n' || c == '\r' || c == '\U{2028}' || c == '\U{2029}'
  }

  predicate NoLineTerminator(s: string) {
    forall i :: 0 <= i < |s| ==> !IsLineTerminator(s[i])
  }

  /** Index of the first line terminator in `s`, or `|s|`: where `.*` stops. */
  function LineEnd(s: string): (e: nat)
    ensures e <= |s|
    ensures forall i :: 0 <= i < e ==> !IsLineTerminator(s[i])
    ensures e < |s| ==> IsLineTerminator(s[e])
  {
    if |s| == 0 || IsLineTerminator(s[0]) then 0 else 1 + LineEnd(s[1..])
  }

  /** The end of a line is the first line terminator. */
  lemma LineEndIs(s: string, e: nat)
    requires e <= |s|
    requires forall i :: 0 <= i < e ==> !IsLineTerminator(s[i])
    requires e < |s| ==> IsLineTerminator(s[e])
    ensures LineEnd(s) == e
  {
  }

  // ---------------------------------------------------------------- `String.prototype.replace`

  /** The replacement pattern of `String.prototype.replace` for a regular expression without
      capture groups: `$$` is `$`, `$&` the match, `` $` `` the text before it, `$'` the
      text after it; any other `$` stays as it is. */
  function Expand(replacement: string, matched: string, before: string, after: string): string
    decreases |replacement|
  {
    if |replacement| == 0 then ""
    else if replacement[0] == '$' && |replacement| >= 2 then
      var c := replacement[1];
      if c == '$' then "$" + Expand(replacement[2..], matched, before, after)
      else if c == '&' then matched + Expand(replacement[2..], matched, before, after)
      else if c == '`' then before + Expand(replacement[2..], matched, before, after)
      else if c == '\'' then after + Expand(replacement[2..], matched, before, after)
      else "$" + Expand(replacement[1..], matched, before, after)
    else [replacement[0]] + Expand(replacement[1..], matched, before, after)
  }

  /** `/App\.Version=.*\/g` applied to `rest`, the part of the content after `before`: each
      match runs from `App.Version=` to the end of its line and the scan resumes after it. */
  function ReplaceRest(before: string, rest: string, replacement: string): string
    decreases |rest|
  {
    if |rest| == 0 then ""
    else if StartsWith(rest, Key) then
      var e := LineEnd(rest);
      assert rest[0] == 'A';
      Expand(replacement, rest[..e], before, rest[e..]) + ReplaceRest(before + rest[..e], rest[e..], replacement)
    else [rest[0]] + ReplaceRest(before + [rest[0]], rest[1..], replacement)
  }

  /** `content.replace(/App\.Version=.*\/g, replacement)`. */
  function ReplaceAll(content: string, replacement: string): string {
    ReplaceRest("", content, replacement)
  }

  /** The same rewrite when the replacement is taken literally: every span from `App.Version=`
      to the end of its line becomes `App.Version=<version>`. */
  function Rewrite(s: string, version: string): string
    decreases |s|
  {
    if |s| == 0 then ""
    else if StartsWith(s, Key) then
      assert s[0] == 'A';
      Key + version + Rewrite(s[LineEnd(s)..], version)
    else [s[0]] + Rewrite(s[1..], version)
  }

  lemma {:induction false} ExpandLiteral(replacement: string, matched: string, before: string, after: string)
    requires '$' !in replacement
    ensures Expand(replacement, matched, before, after) == replacement
    decreases |replacement|
  {
    if |replacement| > 0 {
      ExpandLiteral(replacement[1..], matched, before, after);
    }
  }

  /** Without a `$` in the version, the source's `replace` call is the literal rewrite. */
  lemma {:induction false} ReplaceAllLiteral(before: string, rest: string, version: string)
    requires '$' !in version
    ensures ReplaceRest(before, rest, Key + version) == Rewrite(rest, version)
    decreases |rest|
  {
    if |rest| > 0 {
      if StartsWith(rest, Key) {
        var e := LineEnd(rest);
        assert rest[0] == 'A';
        ExpandLiteral(Key + version, rest[..e], before, rest[e..]);
        ReplaceAllLiteral(before + rest[..e], rest[e..], version);
      } else {
        ReplaceAllLiteral(before + [rest[0]], rest[1..], version);
      }
    }
  }

  // ---------------------------------------------------------------- the rewrite

  lemma ContainsTail(s: string, p: string)
    requires |s| > 0 && !Contains(s, p)
    ensures !Contains(s[1..], p)
  {
  }

  /** Content without `App.Version=` is left as it is. */
  lemma {:induction false} RewriteWithoutKey(s: string, version: string)
    requires !Contains(s, Key)
    ensures Rewrite(s, version) == s
    decreases |s|
  {
    if |s| > 0 {
      ContainsTail(s, Key);
      RewriteWithoutKey(s[1..], version);
    }
  }

  /** A line that starts with `App.Version=` becomes `App.Version=<version>`, and the
      rewrite resumes at the line terminator that ended it. */
  lemma RewriteKeyLine(line: string, tail: string, version: string)
    requires NoLineTerminator(line)
    requires tail == [] || IsLineTerminator(tail[0])
    ensures Rewrite(Key + line + tail, version) == Key + version + Rewrite(tail, version)
  {
    var s := Key + line + tail;
    assert s[..|Key|] == Key;
    forall i | 0 <= i < |Key| + |line| ensures !IsLineTerminator(s[i]) {
      if i >= |Key| { assert s[i] == line[i - |Key|]; }
    }
    LineEndIs(s, |Key| + |line|);
    assert s[|Key| + |line|..] == tail;
  }

  lemma KeyOneLine()
    ensures NoLineTerminator(Key)
  {
    forall i | 0 <= i < |Key| ensures !IsLineTerminator(Key[i]) {
      assert Key[i] in "App.Version=";
    }
  }

  /** Text without `App.Version=` in front of a line terminator does not start with it. */
  lemma NoKeyBeforeTerminator(a: string, t: char, b: string)
    requires !Contains(a, Key) && IsLineTerminator(t)
    ensures !StartsWith(a + [t] + b, Key)
  {
    var s := a + [t] + b;
    if |a| >= |Key| {
      assert !StartsWith(a, Key);
      assert s[..|Key|] == a[..|Key|];
    } else if |Key| <= |s| {
      KeyOneLine();
      assert s[..|Key|][|a|] == t;
    }
  }

  /** Where no `App.Version=` starts, the rewrite copies the first character. */
  lemma RewriteSkip(s: string, version: string)
    requires |s| > 0 && !StartsWith(s, Key)
    ensures Rewrite(s, version) == [s[0]] + Rewrite(s[1..], version)
  {
  }

  /** Text in front of a line terminator that holds no `App.Version=` is copied as it is. */
  lemma {:induction false} RewriteAfterPlainText(a: string, t: char, b: string, version: string)
    requires !Contains(a, Key) && IsLineTerminator(t)
    ensures Rewrite(a + [t] + b, version) == a + [t] + Rewrite(b, version)
    decreases |a|
  {
    var s := a + [t] + b;
    NoKeyBeforeTerminator(a, t, b);
    RewriteSkip(s, version);
    if |a| == 0 {
      assert s[0] == t && s[1..] == b;
      assert a + [t] + Rewrite(b, version) == [t] + Rewrite(b, version);
    } else {
      ContainsTail(a, Key);
      RewriteAfterPlainText(a[1..], t, b, version);
      assert s[0] == a[0] && s[1..] == a[1..] + [t] + b;
      assert [a[0]] + (a[1..] + [t] + Rewrite(b, version)) == a + [t] + Rewrite(b, version) by {
        assert a == [a[0]] + a[1..];
      }
    }
  }

  /** The rewrite keeps each of the first twelve characters. */
  lemma {:induction false} RewriteKeepsChar(s: string, version: string, k: nat)
    requires k < |Key| && k < |s|
    ensures k < |Rewrite(s, version)| && Rewrite(s, version)[k] == s[k]
    decreases k
  {
    if StartsWith(s, Key) {
      assert s[0] == 'A';
      assert Rewrite(s, version)[..|Key|] == Key;
    } else if k > 0 {
      RewriteKeepsChar(s[1..], version, k - 1);
    }
  }

  /** So the rewrite starts with `App.Version=` exactly when its input does. */
  lemma RewriteKeepsStart(s: string, version: string)
    ensures StartsWith(Rewrite(s, version), Key) <==> StartsWith(s, Key)
  {
    var r := Rewrite(s, version);
    if |s| >= |Key| {
      RewriteKeepsChar(s, version, |Key| - 1);
      forall k | 0 <= k < |Key| ensures k < |r| && r[k] == s[k] {
        RewriteKeepsChar(s, version, k);
      }
      assert r[..|Key|] == s[..|Key|];
    } else {
      RewriteWithoutKey(s, version);
    }
  }

  /** No occurrence of `App.Version=` starts before index `n` of `s`. */
  ghost predicate NoKeyBefore(s: string, n: int) {
    forall i :: 0 <= i < n ==> !OccursAt(s, Key, i)
  }

  /** Text in front of the first `App.Version=` is copied as it is. */
  lemma {:induction false} RewriteFrom(a: string, b: string, version: string)
    requires NoKeyBefore(a + b, |a|)
    ensures Rewrite(a + b, version) == a + Rewrite(b, version)
    decreases |a|
  {
    var s := a + b;
    if |a| > 0 {
      assert !OccursAt(s, Key, 0);
      assert s[1..] == a[1..] + b;
      forall i | 0 <= i < |a| - 1 ensures !OccursAt(a[1..] + b, Key, i) {
        if i + |Key| <= |s| - 1 {
          SliceOfSlice(s, 1, |s|, i, i + |Key|);
          assert !OccursAt(s, Key, i + 1);
        }
      }
      RewriteFrom(a[1..], b, version);
    } else {
      assert s == b;
    }
  }

  /** The first `App.Version=`, wherever it sits on its line, starts a span that runs to the
      end of that line and becomes `App.Version=<version>`; the text before it is kept and the
      rewrite resumes at the line terminator. */
  lemma {:induction false} RewriteFirstSpan(a: string, line: string, tail: string, version: string)
    requires NoKeyBefore(a + Key + line + tail, |a|)
    requires NoLineTerminator(line)
    requires tail == [] || IsLineTerminator(tail[0])
    ensures Rewrite(a + Key + line + tail, version) == a + Key + version + Rewrite(tail, version)
  {
    var b := Key + line + tail;
    assert a + Key + line + tail == a + b;
    assert Rewrite(a + b, version) == a + Rewrite(b, version) by {
      RewriteFrom(a, b, version);
    }
    assert Rewrite(b, version) == Key + version + Rewrite(tail, version) by {
      RewriteKeyLine(line, tail, version);
    }
    assert a + (Key + version + Rewrite(tail, version)) == a + Key + version + Rewrite(tail, version);
  }

  /** After a rewrite that had something to rewrite, the content holds `App.Version=<version>`. */
  lemma {:induction false} RewriteWritesVersion(s: string, version: string)
    requires Contains(s, Key)
    ensures Contains(Rewrite(s, version), Key + version)
    decreases |s|
  {
    if StartsWith(s, Key) {
      assert s[0] == 'A';
      var r := Rewrite(s, version);
      assert r[..|Key + version|] == Key + version;
    } else {
      assert |s| > 0;
      RewriteWritesVersion(s[1..], version);
      var r := Rewrite(s, version);
      assert r == [s[0]] + Rewrite(s[1..], version);
      assert r[1..|r|] == Rewrite(s[1..], version);
      ContainsInSlice(r, Key + version, 1, |r|);
    }
  }

  /** Rewriting twice with a one-line version is rewriting once. */
  lemma {:induction false} RewriteIdempotent(s: string, version: string)
    requires NoLineTerminator(version)
    ensures Rewrite(Rewrite(s, version), version) == Rewrite(s, version)
    decreases |s|
  {
    if |s| > 0 {
      if StartsWith(s, Key) {
        assert s[0] == 'A';
        var t := s[LineEnd(s)..];
        var rt := Rewrite(t, version);
        assert rt == [] || IsLineTerminator(rt[0]) by {
          if |t| > 0 {
            assert !StartsWith(t, Key) by { assert IsLineTerminator(t[0]); }
          }
        }
        RewriteKeyLine(version, rt, version);
        RewriteIdempotent(t, version);
      } else {
        RewriteKeepsStart(s, version);
        var r := Rewrite(s, version);
        assert r[1..] == Rewrite(s[1..], version);
        RewriteIdempotent(s[1..], version);
      }
    }
  }

  // ---------------------------------------------------------------- the insert branch

  /** `lines.findIndex(line => line.startsWith('Environment='))`, `None` for -1. */
  function FindEnvironmentLine(lines: seq<string>): (k: Option<nat>)
    ensures k.Some? ==> k.value < |lines| && StartsWith(lines[k.value], EnvironmentPrefix)
    ensures k.Some? ==> forall j :: 0 <= j < k.value ==> !StartsWith(lines[j], EnvironmentPrefix)
    ensures k.None? ==> forall j :: 0 <= j < |lines| ==> !StartsWith(lines[j], EnvironmentPrefix)
  {
    if |lines| == 0 then None
    else if StartsWith(lines[0], EnvironmentPrefix) then Some(0)
    else match FindEnvironmentLine(lines[1..])
      case None => None
      case Some(k) => Some(k + 1)
  }

  /** `lines.splice(k + 1, 0, line)`. */
  function InsertAfter(lines: seq<string>, k: nat, line: string): (r: seq<string>)
    requires k < |lines|
    ensures |r| == |lines| + 1 && r[k + 1] == line
    ensures r[..k + 1] == lines[..k + 1] && r[k + 2..] == lines[k + 1..]
  {
    lines[..k + 1] + [line] + lines[k + 1..]
  }

  /** The content the script writes back. */
  function Updated(content: string, version: string): string {
    if Contains(content, Key) then ReplaceAll(content, Key + version)
    else
      var lines := Split(content, '\n');
      match FindEnvironmentLine(lines)
      case None => content
      case Some(k) => Join(InsertAfter(lines, k, Key + version), '\n')
  }

  /** The script's update, step by step: the `replace` branch, or `findIndex` as a scan
      over the lines and `splice` on them. */
  method SetAppVersion(content: string, version: string) returns (updated: string)
    ensures updated == Updated(content, version)
    ensures Contains(content, Key) ==> updated == ReplaceAll(content, Key + version)
    ensures !Contains(content, Key) && FindEnvironmentLine(Split(content, '\n')).None? ==> updated == content
  {
    updated := content;
    if Contains(content, Key) {
      updated := ReplaceAll(content, Key + version);
    } else {
      var lines := Split(content, '\n');
      var envIndex := 0;
      while envIndex < |lines| && !StartsWith(lines[envIndex], EnvironmentPrefix)
        invariant envIndex <= |lines|
        invariant forall j :: 0 <= j < envIndex ==> !StartsWith(lines[j], EnvironmentPrefix)
      {
        envIndex := envIndex + 1;
      }
      if envIndex < |lines| {
        lines := lines[..envIndex + 1] + [Key + version] + lines[envIndex + 1..];
        updated := Join(lines, '\n');
      }
    }
  }

  /** Without `App.Version=`, the lines of the result are those of the content with
      `App.Version=<version>` right after the first `Environment=` line. */
  lemma InsertedLine(content: string, version: string, k: nat)
    requires !Contains(content, Key) && '\n' !in version
    requires FindEnvironmentLine(Split(content, '\n')) == Some(k)
    ensures var lines := Split(content, '\n');
      Split(Updated(content, version), '\n') == lines[..k + 1] + [Key + version] + lines[k + 1..]
  {
    var lines := Split(content, '\n');
    var r := InsertAfter(lines, k, Key + version);
    assert forall j :: 0 <= j < |r| ==> '\n' !in r[j] by {
      forall j | 0 <= j < |r| ensures '\n' !in r[j] {
        if j < k + 1 { assert r[j] == lines[j]; }
        else if j > k + 1 { assert r[j] == lines[j - 1]; }
        else { assert r[j] == Key + version; }
      }
    }
    SplitJoin(r, '\n');
  }

  /** Whenever one of the two branches changes the content, the result holds
      `App.Version=<version>`. */
  lemma UpdateWritesVersion(content: string, version: string)
    requires '$' !in version
    requires Contains(content, Key) || FindEnvironmentLine(Split(content, '\n')).Some?
    ensures Contains(Updated(content, version), Key + version)
  {
    if Contains(content, Key) {
      ReplaceAllLiteral("", content, version);
      RewriteWritesVersion(content, version);
    } else {
      var lines := Split(content, '\n');
      var k := FindEnvironmentLine(lines).value;
      InsertionLayout(lines, k, Key + version);
      var r := Updated(content, version);
      var a := Join(lines[..k + 1], '\n') + ['\n'];
      assert r[|a|..|a| + |Key + version|] == Key + version;
      assert StartsWith(r[|a|..|a| + |Key + version|], Key + version);
      ContainsInSlice(r, Key + version, |a|, |a| + |Key + version|);
    }
  }

  /** Where the inserted line sits in the joined text. */
  lemma InsertionLayout(lines: seq<string>, k: nat, line: string)
    requires k < |lines|
    ensures var head, tail := Join(lines[..k + 1], '\n'), lines[k + 1..];
      && Join(lines, '\n') == head + (if tail == [] then "" else ['\n'] + Join(tail, '\n'))
      && Join(InsertAfter(lines, k, line), '\n')
         == head + ['\n'] + line + (if tail == [] then "" else ['\n'] + Join(tail, '\n'))
  {
    var head, tail := lines[..k + 1], lines[k + 1..];
    assert lines == head + tail;
    var r := InsertAfter(lines, k, line);
    assert r == head + ([line] + tail);
    JoinAppend(head, [line] + tail, '\n');
    if tail != [] {
      JoinAppend(head, tail, '\n');
      JoinAppend([line], tail, '\n');
    } else {
      assert lines == head;
      assert [line] + tail == [line];
    }
  }

  /** Running the script twice with the same one-line version changes nothing the second time:
      the first run leaves an `App.Version=` line, so the second one rewrites it to itself. */
  lemma UpdateIdempotent(content: string, version: string)
    requires '$' !in version && NoLineTerminator(version)
    ensures Updated(Updated(content, version), version) == Updated(content, version)
  {
    var once := Updated(content, version);
    if Contains(content, Key) {
      ReplaceAllLiteral("", content, version);
      RewriteWritesVersion(content, version);
      ContainsPrefix(once, Key, version);
      ReplaceAllLiteral("", once, version);
      RewriteIdempotent(content, version);
    } else {
      var lines := Split(content, '\n');
      match FindEnvironmentLine(lines)
      case None =>
      case Some(k) =>
        UpdateWritesVersion(content, version);
        ContainsPrefix(once, Key, version);
        ReplaceAllLiteral("", once, version);
        InsertedLineStable(content, version, k);
    }
  }

  /** The text of the insert branch is left alone by a rewrite with the same version. */
  lemma InsertedLineStable(content: string, version: string, k: nat)
    requires NoLineTerminator(version) && !Contains(content, Key)
    requires k < |Split(content, '\n')|
    ensures var once := Join(InsertAfter(Split(content, '\n'), k, Key + version), '\n');
      Rewrite(once, version) == once
  {
    var lines := Split(content, '\n');
    var head, rest := InsertedParts(lines, k, Key + version);
    JoinSplit(content, '\n');
    NotContainsParts(head, rest, Key);
    InsertedTextStable(head, version, rest);
  }

  /** The joined lines around the inserted line: the lines up to line `k`, and the lines
      after it. */
  lemma InsertedParts(lines: seq<string>, k: nat, line: string) returns (head: string, rest: string)
    requires k < |lines|
    ensures Join(lines, '\n') == head + rest
    ensures Join(InsertAfter(lines, k, line), '\n') == head + ['\n'] + (line + rest)
    ensures rest == [] || rest[0] == '\n'
  {
    var tail := lines[k + 1..];
    head := Join(lines[..k + 1], '\n');
    rest := if tail == [] then "" else ['\n'] + Join(tail, '\n');
    InsertionLayout(lines, k, line);
    assert head + ['\n'] + line + rest == head + ['\n'] + (line + rest);
  }

  /** A line `App.Version=<version>` between two texts without `App.Version=`, the second
      empty or starting on a new line, is left alone by the rewrite. */
  lemma InsertedTextStable(head: string, version: string, rest: string)
    requires NoLineTerminator(version) && !Contains(head, Key) && !Contains(rest, Key)
    requires rest == [] || rest[0] == '\n'
    ensures Rewrite(head + ['\n'] + (Key + version + rest), version) == head + ['\n'] + (Key + version + rest)
  {
    RewriteAfterPlainText(head, '\n', Key + version + rest, version);
    KeyLineStable(version, rest);
  }

  /** A line `App.Version=<version>` followed by text without `App.Version=` that is empty or
      starts on a new line is left alone by the rewrite. */
  lemma KeyLineStable(version: string, rest: string)
    requires NoLineTerminator(version) && !Contains(rest, Key)
    requires rest == [] || IsLineTerminator(rest[0])
    ensures Rewrite(Key + version + rest, version) == Key + version + rest
  {
    RewriteKeyLine(version, rest, version);
    RewriteWithoutKey(rest, version);
  }

  /** What does not occur in a concatenation occurs in neither part. */
  lemma NotContainsParts(a: string, b: string, p: string)
    requires !Contains(a + b, p)
    ensures !Contains(a, p) && !Contains(b, p)
  {
    var s := a + b;
    if Contains(a, p) {
      assert s[0..|a|] == a;
      ContainsInSlice(s, p, 0, |a|);
    }
    if Contains(b, p) {
      assert s[|a|..|s|] == b;
      ContainsInSlice(s, p, |a|, |s|);
    }
  }

  lemma ContainsPrefix(s: string, p: string, q: string)
    requires Contains(s, p + q)
    ensures Contains(s, p)
  {
    ContainsIff(s, p + q);
    var i :| OccursAt(s, p + q, i);
    assert s[i..i + |p|] == (p + q)[..|p|];
    assert OccursAt(s, p, i);
    ContainsIff(s, p);
  }

  /** Without `App.Version=` and without an `Environment=` line the content is written back as read. */
  lemma UnchangedWithoutAnchor(content: string, version: string)
    requires !Contains(content, Key)
    requires forall line :: line in Split(content, '\n') ==> !StartsWith(line, EnvironmentPrefix)
    ensures Updated(content, version) == content
  {
  }
}
