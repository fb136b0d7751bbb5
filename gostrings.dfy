/**
 * The parts of Go's `strings`, `strconv`, `unicode` and `regexp/syntax` packages that
 * grun leans on, written out over `string` (a sequence of Unicode scalar values).
 */
module GoStrings {

  /** `\w` and the word test behind `\b` in Go's regexp package: ASCII only. */
  predicate IsWordChar(c: char) {
    'a' <= c <= 'z' || 'A' <= c <= 'Z' || '0' <= c <= '9' || c == '_'
  }

  /** The class `[a-z]`. */
  predicate IsLower(c: char) {
    'a' <= c <= 'z'
  }

  /** The class `[A-Z]`. */
  predicate IsUpper(c: char) {
    'A' <= c <= 'Z'
  }

  predicate IsDigit(c: char) {
    '0' <= c <= '9'
  }

  /** `\s` in Go's regexp package: `[\t\n\f\r ]` (vertical tab is not included). */
  predicate IsRegexSpace(c: char) {
    c == '\t' || c == '\n' || c == '\U{000C}' || c == '\r' || c == ' '
  }

  /** unicode.IsSpace, the test strings.TrimSpace uses: the Latin-1 spaces and the White_Space property. */
  predicate IsGoSpace(c: char) {
    c == '\t' || c == '\n' || c == '\U{000B}' || c == '\U{000C}' || c == '\r' || c == ' '
    || c == '\U{0085}' || c == '\U{00A0}' || c == '\U{1680}'
    || ('\U{2000}' <= c <= '\U{200A}')
    || c == '\U{2028}' || c == '\U{2029}' || c == '\U{202F}' || c == '\U{205F}' || c == '\U{3000}'
  }

  // ---------------------------------------------------------------------------
  // Runs of `\w` and `\s`, the building blocks of the fixed patterns
  // ---------------------------------------------------------------------------

  ghost predicate AllWord(s: string, i: int, j: int)
    requires 0 <= i <= j <= |s|
  {
    forall k :: i <= k < j ==> IsWordChar(s[k])
  }

  ghost predicate AllSpace(s: string, i: int, j: int)
    requires 0 <= i <= j <= |s|
  {
    forall k :: i <= k < j ==> IsRegexSpace(s[k])
  }

  /** The end of the run of word characters starting at i: where a greedy `\w*` stops. */
  function WordEnd(s: string, i: nat): (e: nat)
    requires i <= |s|
    ensures i <= e <= |s| && AllWord(s, i, e)
    ensures e < |s| ==> !IsWordChar(s[e])
    decreases |s| - i
  {
    if i < |s| && IsWordChar(s[i]) then WordEnd(s, i + 1) else i
  }

  /** The end of the run of `\s` characters starting at i: where a greedy `\s*` stops. */
  function SpaceEnd(s: string, i: nat): (e: nat)
    requires i <= |s|
    ensures i <= e <= |s| && AllSpace(s, i, e)
    ensures e < |s| ==> !IsRegexSpace(s[e])
    decreases |s| - i
  {
    if i < |s| && IsRegexSpace(s[i]) then SpaceEnd(s, i + 1) else i
  }

  /** A run of word characters ending at a non-word character (or the end) is what WordEnd finds. */
  lemma WordEndIs(s: string, i: nat, e: nat)
    requires i <= e <= |s| && AllWord(s, i, e) && (e < |s| ==> !IsWordChar(s[e]))
    ensures WordEnd(s, i) == e
  {
  }

  lemma SpaceEndIs(s: string, i: nat, e: nat)
    requires i <= e <= |s| && AllSpace(s, i, e) && (e < |s| ==> !IsRegexSpace(s[e]))
    ensures SpaceEnd(s, i) == e
  {
  }

  // ---------------------------------------------------------------------------
  // Trimming
  // ---------------------------------------------------------------------------

  /** strings.TrimLeftFunc: drops the longest prefix whose characters all satisfy cut. */
  function TrimLeftFunc(s: string, cut: char -> bool): string
    decreases |s|
  {
    if s != [] && cut(s[0]) then TrimLeftFunc(s[1..], cut) else s
  }

  /** TrimLeftFunc leaves a suffix, everything it dropped is cut, and what is left does not start with a cut character. */
  lemma {:induction false} TrimLeftFuncSpec(s: string, cut: char -> bool)
    ensures var r := TrimLeftFunc(s, cut);
            && |r| <= |s| && r == s[|s| - |r|..]
            && (forall i :: 0 <= i < |s| - |r| ==> cut(s[i]))
            && (r != [] ==> !cut(r[0]))
    decreases |s|
  {
    if s != [] && cut(s[0]) {
      TrimLeftFuncSpec(s[1..], cut);
      var r := TrimLeftFunc(s, cut);
      assert forall i :: 1 <= i < |s| - |r| ==> s[i] == s[1..][i - 1];
    }
  }

  /** strings.TrimRightFunc: drops the longest suffix whose characters all satisfy cut. */
  function TrimRightFunc(s: string, cut: char -> bool): string
    decreases |s|
  {
    if s != [] && cut(s[|s| - 1]) then TrimRightFunc(s[..|s| - 1], cut) else s
  }

  /** TrimRightFunc leaves a prefix, everything it dropped is cut, and what is left does not end with a cut character. */
  lemma {:induction false} TrimRightFuncSpec(s: string, cut: char -> bool)
    ensures var r := TrimRightFunc(s, cut);
            && |r| <= |s| && r == s[..|r|]
            && (forall i :: |r| <= i < |s| ==> cut(s[i]))
            && (r != [] ==> !cut(r[|r| - 1]))
    decreases |s|
  {
    if s != [] && cut(s[|s| - 1]) {
      TrimRightFuncSpec(s[..|s| - 1], cut);
      var r := TrimRightFunc(s, cut);
      assert forall i :: |r| <= i < |s| - 1 ==> s[i] == s[..|s| - 1][i];
    }
  }

  /**
   * r is s[i..i+|r|], everything before and after it is cut, and r neither starts nor
   * ends with a cut character: this pins r down uniquely.
   */
  ghost predicate TrimmedAt(s: string, cut: char -> bool, i: nat, r: string) {
    && i + |r| <= |s|
    && r == s[i..i + |r|]
    && (forall j :: 0 <= j < i ==> cut(s[j]))
    && (forall j :: i + |r| <= j < |s| ==> cut(s[j]))
    && (r != [] ==> !cut(r[0]) && !cut(r[|r| - 1]))
  }

  /** strings.TrimFunc. */
  function TrimFunc(s: string, cut: char -> bool): string {
    TrimRightFunc(TrimLeftFunc(s, cut), cut)
  }

  /** TrimFunc keeps the one middle part of s that neither starts nor ends with a cut character. */
  lemma TrimFuncSpec(s: string, cut: char -> bool)
    ensures exists i: nat :: TrimmedAt(s, cut, i, TrimFunc(s, cut))
  {
    var left := TrimLeftFunc(s, cut);
    TrimLeftFuncSpec(s, cut);
    TrimRightFuncSpec(left, cut);
    var r := TrimFunc(s, cut);
    assert forall j :: 0 <= j < |r| ==> r[j] == left[j] == s[|s| - |left| + j];
    assert TrimmedAt(s, cut, |s| - |left|, r);
  }

  /** strings.TrimSpace. */
  function TrimSpace(s: string): string {
    TrimFunc(s, IsGoSpace)
  }

  predicate IsDot(c: char) {
    c == '.'
  }

  /** strings.Trim(s, "."). */
  function TrimDots(s: string): string {
    TrimFunc(s, IsDot)
  }

  lemma TrimFuncKeeps(s: string, cut: char -> bool)
    requires s == [] || (!cut(s[0]) && !cut(s[|s| - 1]))
    ensures TrimFunc(s, cut) == s
  {
    if s != [] {
      assert TrimLeftFunc(s, cut) == s;
      assert TrimRightFunc(s, cut) == s;
    }
  }

  /** Trimming the dot off a qualifier such as "fmt." leaves the bare name. */
  lemma TrimDotsQualifier(name: string)
    requires name != [] && name[0] != '.' && name[|name| - 1] != '.'
    ensures TrimDots(name + ".") == name
  {
    var s := name + ".";
    assert s[0] == name[0] && s[|s| - 1] == '.';
    assert TrimLeftFunc(s, IsDot) == s;
    assert s[..|s| - 1] == name;
    assert name[|name| - 1] == s[|s| - 2];
    assert TrimRightFunc(name, IsDot) == name;
    assert TrimRightFunc(s, IsDot) == TrimRightFunc(name, IsDot);
    assert TrimDots(s) == TrimRightFunc(TrimLeftFunc(s, IsDot), IsDot);
  }

  // ---------------------------------------------------------------------------
  // Splitting and joining on a one-character separator
  // ---------------------------------------------------------------------------

  /** strings.Split(s, string(sep)): the pieces between separators; "" gives [""]. */
  function Split(s: string, sep: char): (parts: seq<string>)
    ensures |parts| >= 1
    ensures forall i :: 0 <= i < |parts| ==> sep !in parts[i]
    ensures (|parts| > 1) == (sep in s)
    decreases |s|
  {
    if s == [] then [[]]
    else
      var rest := Split(s[1..], sep);
      if s[0] == sep then [[]] + rest
      else [[s[0]] + rest[0]] + rest[1..]
  }

  /** strings.Join(parts, string(sep)). */
  function Join(parts: seq<string>, sep: char): string
    decreases |parts|
  {
    if |parts| == 0 then []
    else if |parts| == 1 then parts[0]
    else parts[0] + [sep] + Join(parts[1..], sep)
  }

  /** Joining the pieces of a split with the same separator gives back the text. */
  lemma {:induction false} JoinSplit(s: string, sep: char)
    ensures Join(Split(s, sep), sep) == s
    decreases |s|
  {
    if s != [] {
      var rest := Split(s[1..], sep);
      JoinSplit(s[1..], sep);
      if s[0] != sep && |rest| > 1 {
        assert rest == [rest[0]] + rest[1..];
        assert Join(rest, sep) == rest[0] + [sep] + Join(rest[1..], sep);
      }
    }
  }

  lemma {:induction false} SplitAppend(a: string, b: string, sep: char)
    requires sep !in a
    ensures Split(a + [sep] + b, sep) == [a] + Split(b, sep)
    decreases |a|
  {
    if a == [] {
      assert (a + [sep] + b)[1..] == b;
    } else {
      assert (a + [sep] + b)[1..] == a[1..] + [sep] + b;
      SplitAppend(a[1..], b, sep);
      assert [a[0]] + a[1..] == a;
    }
  }

  /** Splitting a join of separator-free pieces gives back the pieces. */
  lemma {:induction false} SplitJoin(parts: seq<string>, sep: char)
    requires |parts| >= 1
    requires forall i :: 0 <= i < |parts| ==> sep !in parts[i]
    ensures Split(Join(parts, sep), sep) == parts
    decreases |parts|
  {
    if |parts| == 1 {
      var p := Split(parts[0], sep);
      JoinSplit(parts[0], sep);
      assert p == [p[0]];
    } else {
      SplitJoin(parts[1..], sep);
      SplitAppend(parts[0], Join(parts[1..], sep), sep);
      assert parts == [parts[0]] + parts[1..];
    }
  }

  // ---------------------------------------------------------------------------
  // strconv.Itoa on natural numbers
  // ---------------------------------------------------------------------------

  function DigitChar(d: nat): (c: char)
    requires d < 10
    ensures IsDigit(c)
  {
    ('0' as int + d) as char
  }

  /** strconv.Itoa for a non-negative counter: its decimal digits, no leading zero. */
  function Itoa(n: nat): (s: string)
    ensures |s| >= 1
    ensures forall i :: 0 <= i < |s| ==> IsDigit(s[i])
    ensures n >= 10 ==> s[0] != '0'
    decreases n
  {
    if n < 10 then [DigitChar(n)] else Itoa(n / 10) + [DigitChar(n % 10)]
  }

  /** The number a string of decimal digits denotes. */
  function DecimalValue(s: string): nat
    requires forall i :: 0 <= i < |s| ==> IsDigit(s[i])
    decreases |s|
  {
    if s == [] then 0
    else
      assert IsDigit(s[|s| - 1]);
      10 * DecimalValue(s[..|s| - 1]) + (s[|s| - 1] as int - '0' as int)
  }

  /** Reading back the digits Itoa writes gives the number: Itoa loses nothing. */
  lemma {:induction false} ItoaRoundTrip(n: nat)
    ensures DecimalValue(Itoa(n)) == n
    decreases n
  {
    if n >= 10 {
      var s := Itoa(n);
      assert s[..|s| - 1] == Itoa(n / 10);
      ItoaRoundTrip(n / 10);
    }
  }

  lemma ItoaInjective(m: nat, n: nat)
    requires Itoa(m) == Itoa(n)
    ensures m == n
  {
    ItoaRoundTrip(m);
    ItoaRoundTrip(n);
  }
}
