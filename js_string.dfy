/** The JavaScript String built-ins the scripts and page objects rely on, over ASCII:
    `toLowerCase`, `trim`, `includes`, `startsWith`, `endsWith`, `split`/`join` on a
    single-character separator, `padStart`, `Number.prototype.toString` for naturals and
    the prefix parse of `parseInt(s, 10)`. */
module JsString {
  import opened Wrappers

  // ---------------------------------------------------------------- characters

  /** ASCII white space as `trim` and `\s` see it (space, tab, LF, VT, FF, CR). */
  predicate IsWhitespace(c: char) {
    c == ' ' || c == '\t' || c == '\n' || c == '\U{B}' || c == '\U{C}' || c == '\r'
  }

  predicate IsDigit(c: char) {
    '0' <= c <= '9'
  }

  predicate IsAsciiLetter(c: char) {
    ('a' <= c <= 'z') || ('A' <= c <= 'Z')
  }

  function LowerChar(c: char): char {
    if 'A' <= c <= 'Z' then (c as int + 32) as char else c
  }

  function DigitValue(c: char): nat
    requires IsDigit(c)
  {
    c as int - '0' as int
  }

  function DigitChar(d: nat): (c: char)
    requires d < 10
    ensures IsDigit(c) && DigitValue(c) == d
  {
    ('0' as int + d) as char
  }

  // ---------------------------------------------------------------- case and white space

  /** `s.toLowerCase()` restricted to ASCII letters. */
  function ToLower(s: string): (r: string)
    ensures |r| == |s|
    ensures forall i :: 0 <= i < |s| ==> r[i] == LowerChar(s[i])
  {
    seq(|s|, i requires 0 <= i < |s| => LowerChar(s[i]))
  }

  /** `s` without its leading white space. */
  function TrimStart(s: string): string {
    if |s| > 0 && IsWhitespace(s[0]) then TrimStart(s[1..]) else s
  }

  /** `s` without its trailing white space. */
  function TrimEnd(s: string): string {
    if |s| > 0 && IsWhitespace(s[|s| - 1]) then TrimEnd(s[..|s| - 1]) else s
  }

  /** `s.trim()`: `s` without its leading and trailing white space. */
  function Trim(s: string): string {
    TrimEnd(TrimStart(s))
  }

  /** Trimming the start leaves a suffix; what it cut is white space, and what is left does
      not start with white space. */
  lemma {:induction false} TrimStartSpec(s: string)
    ensures |TrimStart(s)| <= |s| && TrimStart(s) == s[|s| - |TrimStart(s)|..]
    ensures forall i :: 0 <= i < |s| - |TrimStart(s)| ==> IsWhitespace(s[i])
    ensures TrimStart(s) == [] || !IsWhitespace(TrimStart(s)[0])
  {
    if |s| > 0 && IsWhitespace(s[0]) {
      TrimStartSpec(s[1..]);
      assert s[1..][|s| - 1 - |TrimStart(s)|..] == s[|s| - |TrimStart(s)|..];
      forall i | 0 < i < |s| - |TrimStart(s)| ensures IsWhitespace(s[i]) {
        assert s[i] == s[1..][i - 1];
      }
    }
  }

  /** Trimming the end leaves a prefix; what it cut is white space, and what is left does
      not end with white space. */
  lemma {:induction false} TrimEndSpec(s: string)
    ensures |TrimEnd(s)| <= |s| && TrimEnd(s) == s[..|TrimEnd(s)|]
    ensures forall i :: |TrimEnd(s)| <= i < |s| ==> IsWhitespace(s[i])
    ensures TrimEnd(s) == [] || !IsWhitespace(TrimEnd(s)[|TrimEnd(s)| - 1])
  {
    if |s| > 0 && IsWhitespace(s[|s| - 1]) {
      TrimEndSpec(s[..|s| - 1]);
      assert s[..|s| - 1][..|TrimEnd(s)|] == s[..|TrimEnd(s)|];
      forall i | |TrimEnd(s)| <= i < |s| - 1 ensures IsWhitespace(s[i]) {
        assert s[i] == s[..|s| - 1][i];
      }
    }
  }

  /** What is left after trimming neither starts nor ends with white space. */
  lemma {:induction false} TrimEnds(s: string)
    ensures Trim(s) == [] || (!IsWhitespace(Trim(s)[0]) && !IsWhitespace(Trim(s)[|Trim(s)| - 1]))
  {
    var t := TrimStart(s);
    var r := TrimEnd(t);
    TrimStartSpec(s);
    TrimEndSpec(t);
    if r != [] {
      assert r[0] == t[0];
    }
  }

  /** The trimmed text is a slice of the input, everything cut off is white space, and
      what is left neither starts nor ends with white space. */
  lemma {:induction false} TrimSlice(s: string)
    ensures exists i :: OccursAt(s, Trim(s), i)
    ensures Trim(s) == [] || (!IsWhitespace(Trim(s)[0]) && !IsWhitespace(Trim(s)[|Trim(s)| - 1]))
    ensures Trim(s) == [] <==> forall i :: 0 <= i < |s| ==> IsWhitespace(s[i])
  {
    var t := TrimStart(s);
    var r := Trim(s);
    TrimStartSpec(s);
    TrimEndSpec(t);
    var i := |s| - |t|;
    assert r == s[i..i + |r|];
    assert OccursAt(s, r, i);
    TrimEnds(s);
    if r == [] {
      assert t == [];
    } else {
      assert !IsWhitespace(s[i]);
    }
  }

  /** Trimming twice is trimming once. */
  lemma {:induction false} TrimIdempotent(s: string)
    ensures Trim(Trim(s)) == Trim(s)
  {
    var r := Trim(s);
    TrimEnds(s);
    assert TrimStart(r) == r;
    assert TrimEnd(r) == r;
  }

  // ---------------------------------------------------------------- searching

  /** `s.startsWith(p)`. */
  predicate StartsWith(s: string, p: string) {
    |p| <= |s| && s[..|p|] == p
  }

  /** `s.endsWith(p)`. */
  predicate EndsWith(s: string, p: string) {
    |p| <= |s| && s[|s| - |p|..] == p
  }

  /** `p` occurs in `s` starting at index `i`. */
  predicate OccursAt(s: string, p: string, i: int) {
    0 <= i && i + |p| <= |s| && s[i..i + |p|] == p
  }

  /** `s.includes(p)`, by scanning from the left. */
  predicate Contains(s: string, p: string)
    decreases |s|
  {
    StartsWith(s, p) || (|s| > |p| && Contains(s[1..], p))
  }

  /** The scan finds `p` exactly when `p` occurs at some index of `s`. */
  lemma {:induction false} ContainsIff(s: string, p: string)
    ensures Contains(s, p) <==> exists i :: OccursAt(s, p, i)
    decreases |s|
  {
    if StartsWith(s, p) {
      assert OccursAt(s, p, 0);
    } else if |s| > |p| {
      ContainsIff(s[1..], p);
      if exists i :: OccursAt(s, p, i) {
        var i :| OccursAt(s, p, i);
        assert i != 0;
        assert OccursAt(s[1..], p, i - 1) by { assert s[1..][i - 1..i - 1 + |p|] == s[i..i + |p|]; }
      }
      if Contains(s[1..], p) {
        var i :| OccursAt(s[1..], p, i);
        assert OccursAt(s, p, i + 1) by { assert s[1..][i..i + |p|] == s[i + 1..i + 1 + |p|]; }
      }
    } else {
      forall i ensures !OccursAt(s, p, i) {
        if 0 <= i && i + |p| <= |s| {
          assert i == 0;
        }
      }
    }
  }

  lemma SliceOfSlice(s: string, lo: int, hi: int, i: int, j: int)
    requires 0 <= lo <= hi <= |s| && 0 <= i <= j <= hi - lo
    ensures s[lo..hi][i..j] == s[lo + i..lo + j]
  {
    var a := s[lo..hi][i..j];
    var b := s[lo + i..lo + j];
    forall k | 0 <= k < j - i ensures a[k] == b[k] {
      assert a[k] == s[lo..hi][i + k];
    }
  }

  /** An occurrence inside a slice is an occurrence in the whole string. */
  lemma ContainsInSlice(s: string, p: string, lo: int, hi: int)
    requires 0 <= lo <= hi <= |s|
    requires Contains(s[lo..hi], p)
    ensures Contains(s, p)
  {
    ContainsIff(s[lo..hi], p);
    var i :| OccursAt(s[lo..hi], p, i);
    SliceOfSlice(s, lo, hi, i, i + |p|);
    assert OccursAt(s, p, lo + i);
    ContainsIff(s, p);
  }

  /** Index of the first `c` in `s`, or `|s|` when there is none. */
  function IndexOf(s: string, c: char): (k: nat)
    ensures k <= |s|
    ensures forall i :: 0 <= i < k ==> s[i] != c
    ensures k < |s| ==> s[k] == c
  {
    if |s| == 0 then 0 else if s[0] == c then 0 else 1 + IndexOf(s[1..], c)
  }

  // ---------------------------------------------------------------- split and join

  /** `s.split(sep)` for a one-character separator: never empty; the parts are the
      maximal separator-free runs, so `"".split(sep)` is `[""]`. */
  function Split(s: string, sep: char): (parts: seq<string>)
    ensures |parts| >= 1
    ensures forall k :: 0 <= k < |parts| ==> sep !in parts[k]
    decreases |s|
  {
    var k := IndexOf(s, sep);
    if k == |s| then [s] else [s[..k]] + Split(s[k + 1..], sep)
  }

  /** `parts.join(sep)`; the join of no parts is the empty string. */
  function Join(parts: seq<string>, sep: char): string
    decreases |parts|
  {
    if |parts| == 0 then ""
    else if |parts| == 1 then parts[0]
    else parts[0] + [sep] + Join(parts[1..], sep)
  }

  /** One step of `Split`: the part before the first separator, then the split of the rest. */
  lemma SplitStep(s: string, sep: char)
    requires IndexOf(s, sep) < |s|
    ensures Split(s, sep) == [s[..IndexOf(s, sep)]] + Split(s[IndexOf(s, sep) + 1..], sep)
  {
  }

  /** One step of `Join` on at least two parts. */
  lemma JoinStep(a: string, rest: seq<string>, sep: char)
    requires |rest| >= 1
    ensures Join([a] + rest, sep) == a + [sep] + Join(rest, sep)
  {
    assert ([a] + rest)[1..] == rest;
  }

  /** Splitting and joining again on the same separator gives back the string. */
  lemma {:induction false} JoinSplit(s: string, sep: char)
    ensures Join(Split(s, sep), sep) == s
    decreases |s|
  {
    var k := IndexOf(s, sep);
    if k < |s| {
      var rest := s[k + 1..];
      SplitStep(s, sep);
      JoinSplit(rest, sep);
      JoinStep(s[..k], Split(rest, sep), sep);
      assert s == s[..k] + [sep] + rest;
    }
  }

  /** Joining parts that do not contain the separator and splitting again gives back
      the parts. */
  lemma {:induction false} SplitJoin(parts: seq<string>, sep: char)
    requires |parts| >= 1
    requires forall k :: 0 <= k < |parts| ==> sep !in parts[k]
    ensures Split(Join(parts, sep), sep) == parts
    decreases |parts|
  {
    if |parts| > 1 {
      var s := Join(parts, sep);
      var p := parts[0];
      assert s == p + [sep] + Join(parts[1..], sep);
      assert IndexOf(s, sep) == |p| by {
        assert s[|p|] == sep;
        assert forall i :: 0 <= i < |p| ==> s[i] == p[i];
      }
      assert s[..|p|] == p;
      assert s[|p| + 1..] == Join(parts[1..], sep);
      SplitJoin(parts[1..], sep);
    }
  }

  /** Joining two non-empty runs of parts puts one separator between their joins. */
  lemma {:induction false} JoinAppend(a: seq<string>, b: seq<string>, sep: char)
    requires |a| >= 1 && |b| >= 1
    ensures Join(a + b, sep) == Join(a, sep) + [sep] + Join(b, sep)
    decreases |a|
  {
    if |a| == 1 {
      assert (a + b)[1..] == b;
    } else {
      assert (a + b)[1..] == a[1..] + b;
      JoinAppend(a[1..], b, sep);
    }
  }

  /** Number of occurrences of `c` in `s`. */
  function CountChar(s: string, c: char): nat {
    if |s| == 0 then 0 else (if s[0] == c then 1 else 0) + CountChar(s[1..], c)
  }

  lemma {:induction false} CountCharAppend(a: string, b: string, c: char)
    ensures CountChar(a + b, c) == CountChar(a, c) + CountChar(b, c)
    decreases |a|
  {
    if |a| > 0 {
      assert (a + b)[0] == a[0];
      assert (a + b)[1..] == a[1..] + b;
      CountCharAppend(a[1..], b, c);
    } else {
      assert a + b == b;
    }
  }

  lemma {:induction false} CountCharAbsent(s: string, c: char)
    requires c !in s
    ensures CountChar(s, c) == 0
    decreases |s|
  {
    if |s| > 0 {
      CountCharAbsent(s[1..], c);
    }
  }

  /** Joining `n` separator-free parts puts exactly `n - 1` separators in the result. */
  lemma {:induction false} JoinSeparatorCount(parts: seq<string>, sep: char)
    requires |parts| >= 1
    requires forall k :: 0 <= k < |parts| ==> sep !in parts[k]
    ensures CountChar(Join(parts, sep), sep) == |parts| - 1
    decreases |parts|
  {
    CountCharAbsent(parts[0], sep);
    if |parts| > 1 {
      JoinSeparatorCount(parts[1..], sep);
      CountCharAppend(parts[0] + [sep], Join(parts[1..], sep), sep);
      CountCharAppend(parts[0], [sep], sep);
      assert CountChar([sep], sep) == 1 by { assert [sep][1..] == []; }
    }
  }

  /** A prefix of what follows the separator at `k`, put after `s[..k]` and the separator,
      is a prefix of `s`. */
  lemma PrefixThroughSeparator(s: string, sep: char, k: nat, j: string)
    requires k < |s| && s[k] == sep && StartsWith(s[k + 1..], j)
    ensures StartsWith(s, s[..k] + [sep] + j)
  {
    var t := s[..k] + [sep] + j;
    assert |t| <= |s|;
    forall i | 0 <= i < |t| ensures s[i] == t[i] {
      if i > k {
        assert t[i] == j[i - k - 1] == s[k + 1..][i - k - 1];
      }
    }
    assert s[..|t|] == t;
  }

  /** Joining the first `n` parts of a split gives a prefix of the split string. */
  lemma {:induction false} JoinSplitPrefix(s: string, sep: char, n: nat)
    requires 1 <= n <= |Split(s, sep)|
    ensures StartsWith(s, Join(Split(s, sep)[..n], sep))
    decreases |s|
  {
    var k := IndexOf(s, sep);
    if k == |s| {
      assert Split(s, sep)[..n] == [s];
    } else {
      var rest := s[k + 1..];
      SplitStep(s, sep);
      if n == 1 {
        assert Split(s, sep)[..n] == [s[..k]];
      } else {
        var tail := Split(rest, sep)[..n - 1];
        JoinSplitPrefix(rest, sep, n - 1);
        assert Split(s, sep)[..n] == [s[..k]] + tail;
        JoinStep(s[..k], tail, sep);
        PrefixThroughSeparator(s, sep, k, Join(tail, sep));
      }
    }
  }


  // ---------------------------------------------------------------- numbers

  /** `n.toString()`: the decimal digits of `n`, without leading zeros. */
  function NatToString(n: nat): (s: string)
    ensures |s| >= 1 && forall i :: 0 <= i < |s| ==> IsDigit(s[i])
    ensures |s| > 1 ==> s[0] != '0'
  {
    if n < 10 then [DigitChar(n)] else NatToString(n / 10) + [DigitChar(n % 10)]
  }

  /** The value of a non-empty run of decimal digits. */
  function DigitsValue(s: string): nat
    requires |s| >= 1 && forall i :: 0 <= i < |s| ==> IsDigit(s[i])
  {
    if |s| == 1 then DigitValue(s[0]) else 10 * DigitsValue(s[..|s| - 1]) + DigitValue(s[|s| - 1])
  }

  /** Reading the decimal digits of `n` back gives `n`. */
  lemma {:induction false} DigitsValueOfNatToString(n: nat)
    ensures DigitsValue(NatToString(n)) == n
  {
    if n >= 10 {
      var s := NatToString(n);
      assert s[..|s| - 1] == NatToString(n / 10);
      DigitsValueOfNatToString(n / 10);
    }
  }

  /** `NatToString` has one digit below 10, two below 100, four from 1000 to 9999. */
  lemma NatToStringLength(n: nat)
    ensures n < 10 ==> |NatToString(n)| == 1
    ensures 10 <= n < 100 ==> |NatToString(n)| == 2
    ensures 1000 <= n < 10000 ==> |NatToString(n)| == 4
  {
    if 1000 <= n < 10000 {
      assert NatToString(n) == NatToString(n / 10) + [DigitChar(n % 10)];
      assert NatToString(n / 10) == NatToString(n / 100) + [DigitChar(n / 10 % 10)];
    }
  }

  /** `s.padStart(width, fill)`: `fill` repeated on the left up to `width` characters. */
  function PadStart(s: string, width: nat, fill: char): (r: string)
    ensures |r| == if |s| >= width then |s| else width
    ensures r[|r| - |s|..] == s
    ensures forall i :: 0 <= i < |r| - |s| ==> r[i] == fill
  {
    if |s| >= width then s else seq(width - |s|, _ => fill) + s
  }

  /** End of the maximal run of digits of `s` starting at `from`. */
  function DigitRunEnd(s: string, from: nat): (e: nat)
    requires from <= |s|
    ensures from <= e <= |s|
    ensures forall i :: from <= i < e ==> IsDigit(s[i])
    ensures e == |s| || !IsDigit(s[e])
    decreases |s| - from
  {
    if from < |s| && IsDigit(s[from]) then DigitRunEnd(s, from + 1) else from
  }

  /** `parseInt(s, 10)` on a string without leading white space: an optional sign followed by
      the longest run of decimal digits; `None` stands for `NaN` (no digit after the sign). */
  function ParseIntPrefix(s: string): Option<int> {
    var negative := |s| > 0 && s[0] == '-';
    var start := if |s| > 0 && (s[0] == '-' || s[0] == '+') then 1 else 0;
    var e := DigitRunEnd(s, start);
    if e == start then None
    else
      var magnitude: int := DigitsValue(s[start..e]);
      var value: int := if negative then -magnitude else magnitude;
      Some(value)
  }

  /** `parseInt` reads the decimal rendering of a natural number back, whatever follows it
      as long as it does not start with a digit. */
  lemma ParseIntOfNatToString(n: nat, rest: string)
    requires rest == [] || !IsDigit(rest[0])
    ensures ParseIntPrefix(NatToString(n) + rest) == Some(n)
  {
    var d := NatToString(n);
    var s := d + rest;
    assert s[0] == d[0];
    assert DigitRunEnd(s, 0) == |d| by {
      DigitRunEndAt(s, 0, |d|);
    }
    assert s[0..|d|] == d;
    DigitsValueOfNatToString(n);
  }

  /** A sign in front of the digits of `n` makes `parseInt` read `-n` or `n`. */
  lemma ParseIntOfSignedNatToString(sign: char, n: nat, rest: string)
    requires sign == '-' || sign == '+'
    requires rest == [] || !IsDigit(rest[0])
    ensures ParseIntPrefix([sign] + NatToString(n) + rest) == Some(if sign == '-' then -(n as int) else n)
  {
    var d := NatToString(n);
    var s := [sign] + d + rest;
    assert DigitRunEnd(s, 1) == 1 + |d| by {
      DigitRunEndAt(s, 1, 1 + |d|);
    }
    assert s[1..1 + |d|] == d;
    DigitsValueOfNatToString(n);
  }

  /** A sign followed by no digit is `NaN`. */
  lemma ParseIntOfBareSign(s: string)
    requires |s| > 0 && (s[0] == '-' || s[0] == '+')
    requires |s| == 1 || !IsDigit(s[1])
    ensures ParseIntPrefix(s).None?
  {
    DigitRunEndAt(s, 1, 1);
  }

  lemma {:induction false} DigitRunEndAt(s: string, from: nat, e: nat)
    requires from <= e <= |s|
    requires forall i :: from <= i < e ==> IsDigit(s[i])
    requires e == |s| || !IsDigit(s[e])
    ensures DigitRunEnd(s, from) == e
    decreases e - from
  {
    if from < e {
      DigitRunEndAt(s, from + 1, e);
    }
  }
}
