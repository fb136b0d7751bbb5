/**
 * The two shortcut rewrites grun applies to the expression once literals are hoisted
 * (grun.go:147-152): `R(` becomes `regexp.MustCompile(` and a single capital before a dot
 * is expanded through the alias table. Each fixed regular expression is written as a
 * scanner with Go's leftmost-first, non-overlapping replace-all semantics.
 */
module Shortcuts {
  import opened GoStrings

  // ===========================================================================
  // Two-character shortcuts at a word boundary: `\bR\(` and `\b[A-Z]\.`
  // ===========================================================================

  /**
   * Replace-all of `\b<lead><next>`, where lead accepts only word characters (so `\b` before
   * it means the character before is not a word character) and repl gives the text for the
   * lead character. afterWord says whether the character before s is a word character.
   */
  function RewriteFrom(afterWord: bool, s: string, lead: char -> bool, next: char, repl: char -> string): string
    decreases |s|
  {
    if s == [] then []
    else if !afterWord && |s| >= 2 && lead(s[0]) && s[1] == next then
      repl(s[0]) + RewriteFrom(IsWordChar(s[1]), s[2..], lead, next, repl)
    else [s[0]] + RewriteFrom(IsWordChar(s[0]), s[1..], lead, next, repl)
  }

  /** The pattern matches t at i (afterWord describes the character before t). */
  ghost predicate RewriteAt(afterWord: bool, t: string, i: int, lead: char -> bool, next: char) {
    && 0 <= i && i + 2 <= |t| && lead(t[i]) && t[i + 1] == next
    && (if i == 0 then !afterWord else !IsWordChar(t[i - 1]))
  }

  ghost predicate NothingToRewrite(afterWord: bool, t: string, lead: char -> bool, next: char) {
    forall i :: !RewriteAt(afterWord, t, i, lead, next)
  }

  /** What both shortcut tables satisfy. */
  ghost predicate WellFormedShortcut(lead: char -> bool, next: char, repl: char -> string) {
    && (forall c :: lead(c) ==> IsWordChar(c))
    && !IsWordChar(next)
    && (forall c :: |repl(c)| > 0 && !IsWordChar(repl(c)[|repl(c)| - 1]))
    && (forall c, j :: 0 <= j < |repl(c)| ==> !lead(repl(c)[j]))
  }

  /** Whether the character before the rest of a text is a word character, after reading a. */
  function AfterWord(afterWord: bool, a: string): bool {
    if a == [] then afterWord else IsWordChar(a[|a| - 1])
  }

  lemma RewriteAtShift(afterWord: bool, a: string, u: string, i: int, lead: char -> bool, next: char)
    requires 0 <= i
    ensures RewriteAt(afterWord, a + u, |a| + i, lead, next) == RewriteAt(AfterWord(afterWord, a), u, i, lead, next)
  {
    if a != [] && i == 0 {
      assert (a + u)[|a| - 1] == a[|a| - 1];
    }
  }

  lemma Associative(x: string, y: string, z: string)
    ensures x + (y + z) == (x + y) + z
  {
  }

  /** Left to right, rewriting a concatenation is rewriting each part, if no match spans the seam. */
  lemma {:induction false} RewriteAppend(afterWord: bool, a: string, u: string, lead: char -> bool, next: char, repl: char -> string)
    requires a == [] || !lead(a[|a| - 1]) || u == [] || u[0] != next
    ensures RewriteFrom(afterWord, a + u, lead, next, repl)
         == RewriteFrom(afterWord, a, lead, next, repl) + RewriteFrom(AfterWord(afterWord, a), u, lead, next, repl)
    decreases |a|
  {
    if a == [] {
      assert a + u == u;
    } else {
      var s := a + u;
      var tail := RewriteFrom(AfterWord(afterWord, a), u, lead, next, repl);
      assert s[0] == a[0];
      if !afterWord && |s| >= 2 && lead(s[0]) && s[1] == next {
        assert |a| >= 2 && s[1] == a[1];
        var w := IsWordChar(a[1]);
        assert s[2..] == a[2..] + u;
        RewriteAppend(w, a[2..], u, lead, next, repl);
        assert AfterWord(w, a[2..]) == AfterWord(afterWord, a);
        assert RewriteFrom(afterWord, a, lead, next, repl) == repl(a[0]) + RewriteFrom(w, a[2..], lead, next, repl);
        assert RewriteFrom(afterWord, s, lead, next, repl) == repl(a[0]) + (RewriteFrom(w, a[2..], lead, next, repl) + tail);
        Associative(repl(a[0]), RewriteFrom(w, a[2..], lead, next, repl), tail);
      } else {
        assert |a| >= 2 ==> s[1] == a[1];
        var w := IsWordChar(a[0]);
        assert s[1..] == a[1..] + u;
        RewriteAppend(w, a[1..], u, lead, next, repl);
        assert AfterWord(w, a[1..]) == AfterWord(afterWord, a);
        assert RewriteFrom(afterWord, a, lead, next, repl) == [a[0]] + RewriteFrom(w, a[1..], lead, next, repl);
        assert RewriteFrom(afterWord, s, lead, next, repl) == [a[0]] + (RewriteFrom(w, a[1..], lead, next, repl) + tail);
        Associative([a[0]], RewriteFrom(w, a[1..], lead, next, repl), tail);
      }
    }
  }

  /** The pattern at a word boundary is replaced. */
  lemma RewriteHit(a: string, c: char, b: string, lead: char -> bool, next: char, repl: char -> string)
    requires WellFormedShortcut(lead, next, repl)
    requires lead(c)
    requires a == [] || !IsWordChar(a[|a| - 1])
    ensures RewriteFrom(false, a + [c, next] + b, lead, next, repl)
         == RewriteFrom(false, a, lead, next, repl) + repl(c) + RewriteFrom(false, b, lead, next, repl)
  {
    assert a + [c, next] + b == a + ([c, next] + b);
    RewriteAppend(false, a, [c, next] + b, lead, next, repl);
    assert ([c, next] + b)[2..] == b;
  }

  /** The pattern right after a word character is left alone. */
  lemma RewriteAfterWord(a: string, c: char, b: string, lead: char -> bool, next: char, repl: char -> string)
    requires WellFormedShortcut(lead, next, repl)
    requires lead(c)
    requires a != [] && IsWordChar(a[|a| - 1])
    ensures RewriteFrom(false, a + [c, next] + b, lead, next, repl)
         == RewriteFrom(false, a, lead, next, repl) + [c, next] + RewriteFrom(false, b, lead, next, repl)
  {
    assert a + [c, next] + b == a + ([c, next] + b);
    RewriteAppend(false, a, [c, next] + b, lead, next, repl);
    assert ([c, next] + b)[1..] == [next] + b;
    assert ([next] + b)[1..] == b;
  }

  /** A text with nothing to rewrite comes back unchanged. */
  lemma {:induction false} RewriteKeeps(afterWord: bool, s: string, lead: char -> bool, next: char, repl: char -> string)
    requires NothingToRewrite(afterWord, s, lead, next)
    ensures RewriteFrom(afterWord, s, lead, next, repl) == s
    decreases |s|
  {
    if s != [] {
      assert !RewriteAt(afterWord, s, 0, lead, next);
      forall i ensures !RewriteAt(IsWordChar(s[0]), s[1..], i, lead, next) {
        if 0 <= i {
          RewriteAtShift(afterWord, [s[0]], s[1..], i, lead, next);
          assert [s[0]] + s[1..] == s;
        }
      }
      RewriteKeeps(IsWordChar(s[0]), s[1..], lead, next, repl);
    }
  }

  lemma RewriteAfterWordHead(s: string, lead: char -> bool, next: char, repl: char -> string)
    requires s != []
    ensures RewriteFrom(true, s, lead, next, repl) != [] && RewriteFrom(true, s, lead, next, repl)[0] == s[0]
  {
  }

  /** After the rewrite nothing is left to rewrite. */
  lemma {:induction false} RewriteComplete(afterWord: bool, s: string, lead: char -> bool, next: char, repl: char -> string)
    requires WellFormedShortcut(lead, next, repl)
    ensures NothingToRewrite(afterWord, RewriteFrom(afterWord, s, lead, next, repl), lead, next)
    decreases |s|
  {
    var t := RewriteFrom(afterWord, s, lead, next, repl);
    if s != [] {
      if !afterWord && |s| >= 2 && lead(s[0]) && s[1] == next {
        var r := repl(s[0]);
        var t' := RewriteFrom(IsWordChar(s[1]), s[2..], lead, next, repl);
        RewriteComplete(IsWordChar(s[1]), s[2..], lead, next, repl);
        assert t == r + t';
        forall i ensures !RewriteAt(afterWord, t, i, lead, next) {
          if i >= |r| {
            RewriteAtShift(afterWord, r, t', i - |r|, lead, next);
          } else if 0 <= i {
            assert t[i] == r[i];
          }
        }
      } else {
        var t' := RewriteFrom(IsWordChar(s[0]), s[1..], lead, next, repl);
        RewriteComplete(IsWordChar(s[0]), s[1..], lead, next, repl);
        assert t == [s[0]] + t';
        forall i ensures !RewriteAt(afterWord, t, i, lead, next) {
          if i >= 1 {
            RewriteAtShift(afterWord, [s[0]], t', i - 1, lead, next);
          } else if i == 0 && |s| >= 2 && lead(s[0]) {
            RewriteAfterWordHead(s[1..], lead, next, repl);
          }
        }
      }
    }
  }

  /** Quote-free texts x and y in front of t and u, which hold equally many quotes, keep them equal. */
  lemma QuotesPrefix(x: string, y: string, t: string, u: string)
    requires '"' !in x && '"' !in y && multiset(t)['"'] == multiset(u)['"']
    ensures multiset(x + t)['"'] == multiset(y + u)['"']
  {
    assert multiset(x + t) == multiset(x) + multiset(t);
    assert multiset(y + u) == multiset(y) + multiset(u);
  }

  /** Putting the same text in front of t and u, which hold equally many quotes, keeps them equal. */
  lemma QuotesSame(x: string, t: string, u: string)
    requires multiset(t)['"'] == multiset(u)['"']
    ensures multiset(x + t)['"'] == multiset(x + u)['"']
  {
    assert multiset(x + t) == multiset(x) + multiset(t);
    assert multiset(x + u) == multiset(x) + multiset(u);
  }

  /** One replacement step keeps the number of quotes. */
  lemma RewriteQuotesHit(afterWord: bool, s: string, lead: char -> bool, next: char, repl: char -> string)
    requires !lead('"') && next != '"'
    requires !afterWord && |s| >= 2 && lead(s[0]) && s[1] == next && '"' !in repl(s[0])
    requires multiset(RewriteFrom(IsWordChar(s[1]), s[2..], lead, next, repl))['"'] == multiset(s[2..])['"']
    ensures multiset(RewriteFrom(afterWord, s, lead, next, repl))['"'] == multiset(s)['"']
  {
    var rest := RewriteFrom(IsWordChar(s[1]), s[2..], lead, next, repl);
    assert RewriteFrom(afterWord, s, lead, next, repl) == repl(s[0]) + rest;
    var head := s[..2];
    assert s == head + s[2..];
    assert head == [s[0], next];
    QuotesPrefix(repl(s[0]), head, rest, s[2..]);
  }

  /** One step that copies a character keeps the number of quotes. */
  lemma RewriteQuotesMiss(afterWord: bool, s: string, lead: char -> bool, next: char, repl: char -> string)
    requires s != [] && !(!afterWord && |s| >= 2 && lead(s[0]) && s[1] == next)
    requires multiset(RewriteFrom(IsWordChar(s[0]), s[1..], lead, next, repl))['"'] == multiset(s[1..])['"']
    ensures multiset(RewriteFrom(afterWord, s, lead, next, repl))['"'] == multiset(s)['"']
  {
    assert s == [s[0]] + s[1..];
    QuotesSame([s[0]], RewriteFrom(IsWordChar(s[0]), s[1..], lead, next, repl), s[1..]);
  }

  /** A rewrite whose lead character and replacements are not quotes keeps the number of quotes. */
  lemma {:induction false} RewriteQuotes(afterWord: bool, s: string, lead: char -> bool, next: char, repl: char -> string)
    requires !lead('"') && next != '"'
    requires forall c :: '"' !in repl(c)
    ensures multiset(RewriteFrom(afterWord, s, lead, next, repl))['"'] == multiset(s)['"']
    decreases |s|
  {
    if s != [] {
      if !afterWord && |s| >= 2 && lead(s[0]) && s[1] == next {
        RewriteQuotes(IsWordChar(s[1]), s[2..], lead, next, repl);
        RewriteQuotesHit(afterWord, s, lead, next, repl);
      } else {
        RewriteQuotes(IsWordChar(s[0]), s[1..], lead, next, repl);
        RewriteQuotesMiss(afterWord, s, lead, next, repl);
      }
    }
  }

  // ---------------------------------------------------------------------------
  // `\bR\(` -> regexp.MustCompile(
  // ---------------------------------------------------------------------------

  const REGEXP_COMPILE := "regexp.MustCompile("

  predicate IsR(c: char) {
    c == 'R'
  }

  function CompileCall(c: char): string {
    REGEXP_COMPILE
  }

  /** grun.go:147: ReplaceAllString with `\bR\(`. */
  function ExpandRegexShortcut(s: string): string {
    RewriteFrom(false, s, IsR, '(', CompileCall)
  }

  lemma RegexShortcutWellFormed()
    ensures WellFormedShortcut(IsR, '(', CompileCall)
  {
    assert forall j :: 0 <= j < |REGEXP_COMPILE| ==> REGEXP_COMPILE[j] != 'R';
  }

  /** `R(` at a word boundary becomes `regexp.MustCompile(`. */
  lemma RegexShortcutHit(a: string, b: string)
    requires a == [] || !IsWordChar(a[|a| - 1])
    ensures ExpandRegexShortcut(a + "R(" + b)
         == ExpandRegexShortcut(a) + "regexp.MustCompile(" + ExpandRegexShortcut(b)
  {
    RegexShortcutWellFormed();
    RewriteHit(a, 'R', b, IsR, '(', CompileCall);
  }

  /** `R(` right after a word character, as in `xR(`, is left alone. */
  lemma RegexShortcutAfterWord(a: string, b: string)
    requires a != [] && IsWordChar(a[|a| - 1])
    ensures ExpandRegexShortcut(a + "R(" + b) == ExpandRegexShortcut(a) + "R(" + ExpandRegexShortcut(b)
  {
    RegexShortcutWellFormed();
    RewriteAfterWord(a, 'R', b, IsR, '(', CompileCall);
  }

  /** No `\bR\(` is left, text without one is unchanged, and so the expansion is idempotent. */
  lemma RegexShortcutComplete(s: string)
    ensures NothingToRewrite(false, ExpandRegexShortcut(s), IsR, '(')
    ensures NothingToRewrite(false, s, IsR, '(') ==> ExpandRegexShortcut(s) == s
    ensures ExpandRegexShortcut(ExpandRegexShortcut(s)) == ExpandRegexShortcut(s)
  {
    RegexShortcutWellFormed();
    RewriteComplete(false, s, IsR, '(', CompileCall);
    RewriteKeeps(false, ExpandRegexShortcut(s), IsR, '(', CompileCall);
    if NothingToRewrite(false, s, IsR, '(') {
      RewriteKeeps(false, s, IsR, '(', CompileCall);
    }
  }

  /** The `R(` rewrite adds and removes no quote. */
  lemma RegexShortcutQuotes(s: string)
    ensures multiset(ExpandRegexShortcut(s))['"'] == multiset(s)['"']
  {
    assert '"' !in REGEXP_COMPILE;
    RewriteQuotes(false, s, IsR, '(', CompileCall);
  }

  // ---------------------------------------------------------------------------
  // `\b[A-Z]\.` -> substitutions[letter] + "."
  // ---------------------------------------------------------------------------

  /** The alias table of grun.go:100-104. */
  function Substitutions(): map<string, string> {
    map["S" := "strings", "M" := "math", "C" := "strconv"]
  }

  /** substitutions[key]: a Go map miss gives the empty string. */
  function Substitution(key: string): string {
    if key in Substitutions() then Substitutions()[key] else ""
  }

  /** The closure of grun.go:149-152 on the match `X.`: look up X, add a dot. */
  function AliasExpansion(c: char): string {
    Substitution([c]) + "."
  }

  /** The closure trims the dots off its match before the lookup; for `X.` that leaves X. */
  lemma AliasExpansionTrims(c: char)
    requires IsUpper(c)
    ensures AliasExpansion(c) == Substitution(TrimDots([c] + ".")) + "."
  {
    TrimDotsQualifier([c]);
  }

  /** grun.go:149: ReplaceAllStringFunc with `\b[A-Z]\.`. */
  function ExpandAliases(s: string): string {
    RewriteFrom(false, s, IsUpper, '.', AliasExpansion)
  }

  lemma SubstitutionLower(key: string)
    ensures forall j :: 0 <= j < |Substitution(key)| ==> IsLower(Substitution(key)[j])
  {
    var v := Substitution(key);
    assert v == "strings" || v == "math" || v == "strconv" || v == "";
  }

  lemma AliasesWellFormed()
    ensures WellFormedShortcut(IsUpper, '.', AliasExpansion)
  {
    forall c, j | 0 <= j < |AliasExpansion(c)|
      ensures !IsUpper(AliasExpansion(c)[j])
    {
      SubstitutionLower([c]);
    }
  }

  /** The table: S, M and C expand to their packages, any other capital to a bare dot. */
  lemma AliasTable(c: char)
    requires IsUpper(c)
    ensures AliasExpansion(c) == (if c == 'S' then "strings." else if c == 'M' then "math." else if c == 'C' then "strconv." else ".")
  {
    assert [c] == "S" <==> c == 'S';
    assert [c] == "M" <==> c == 'M';
    assert [c] == "C" <==> c == 'C';
  }

  /** A capital at a word boundary followed by `.` is expanded through the table. */
  lemma AliasHit(a: string, c: char, b: string)
    requires IsUpper(c)
    requires a == [] || !IsWordChar(a[|a| - 1])
    ensures ExpandAliases(a + [c, '.'] + b) == ExpandAliases(a) + AliasExpansion(c) + ExpandAliases(b)
  {
    AliasesWellFormed();
    RewriteHit(a, c, b, IsUpper, '.', AliasExpansion);
  }

  /** A capital right after a word character, as in `AB.`, is left alone. */
  lemma AliasAfterWord(a: string, c: char, b: string)
    requires IsUpper(c)
    requires a != [] && IsWordChar(a[|a| - 1])
    ensures ExpandAliases(a + [c, '.'] + b) == ExpandAliases(a) + [c, '.'] + ExpandAliases(b)
  {
    AliasesWellFormed();
    RewriteAfterWord(a, c, b, IsUpper, '.', AliasExpansion);
  }

  /** No `\b[A-Z]\.` is left, text without one is unchanged, and so the expansion is idempotent. */
  lemma AliasesComplete(s: string)
    ensures NothingToRewrite(false, ExpandAliases(s), IsUpper, '.')
    ensures NothingToRewrite(false, s, IsUpper, '.') ==> ExpandAliases(s) == s
    ensures ExpandAliases(ExpandAliases(s)) == ExpandAliases(s)
  {
    AliasesWellFormed();
    RewriteComplete(false, s, IsUpper, '.', AliasExpansion);
    RewriteKeeps(false, ExpandAliases(s), IsUpper, '.', AliasExpansion);
    if NothingToRewrite(false, s, IsUpper, '.') {
      RewriteKeeps(false, s, IsUpper, '.', AliasExpansion);
    }
  }

  /** The alias rewrite adds and removes no quote. */
  lemma AliasesQuotes(s: string)
    ensures multiset(ExpandAliases(s))['"'] == multiset(s)['"']
  {
    forall c
      ensures '"' !in AliasExpansion(c)
    {
      SubstitutionLower([c]);
    }
    RewriteQuotes(false, s, IsUpper, '.', AliasExpansion);
  }
}
