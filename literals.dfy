/**
 * Hoisting string literals out of the expression (grun.go:137-145). Every match of
 * `"[^"]*"` is replaced by a variable _s1, _s2, ... and a binding line `_sk:=<literal>` is
 * recorded for it, so that the later rewrites never see the inside of a literal.
 *
 * regexp.ReplaceAllStringFunc finds the matches left to right (LiteralSpans) and splices
 * the closure's result in for each one; the closure counts the matches (kount) and appends
 * a binding per match (lines). HoistLiterals is that splice loop with the closure's state.
 */
module Literals {
  import opened Wrappers
  import opened GoStrings

  /** The first double quote at or after i (NextQuoteIsFirst says no quote comes earlier). */
  function NextQuote(s: string, i: nat): (r: Option<nat>)
    requires i <= |s|
    ensures r.Some? ==> i <= r.value < |s| && s[r.value] == '"'
    decreases |s| - i
  {
    if i == |s| then None else if s[i] == '"' then Some(i) else NextQuote(s, i + 1)
  }

  lemma {:induction false} NextQuoteIsFirst(s: string, i: nat)
    requires i <= |s|
    ensures NextQuote(s, i).Some? ==> forall j :: i <= j < NextQuote(s, i).value ==> s[j] != '"'
    ensures NextQuote(s, i).None? ==> forall j :: i <= j < |s| ==> s[j] != '"'
    decreases |s| - i
  {
    if i < |s| && s[i] != '"' {
      NextQuoteIsFirst(s, i + 1);
    }
  }

  /** A match: the text s[start..end]. */
  datatype Span = Span(start: nat, end: nat)

  /** Where the text before the j-th span starts: i, or the end of the span before it. */
  function Before(spans: seq<Span>, j: nat, i: nat): nat
    requires j <= |spans|
  {
    if j == 0 then i else spans[j - 1].end
  }

  /** The spans lie inside s from position i on, in order and without overlapping. */
  ghost predicate Ordered(s: string, i: nat, spans: seq<Span>) {
    && i <= |s|
    && (|spans| > 0 ==> i <= spans[0].start)
    && (forall j :: 0 <= j < |spans| ==> spans[j].start < spans[j].end <= |s|)
    && (forall j, k :: 0 <= j < k < |spans| ==> spans[j].end <= spans[k].start)
  }

  /**
   * The matches of `"[^"]*"` from position i, leftmost first and non-overlapping: a match
   * runs from a quote to the next quote; a quote with no quote after it starts no match.
   */
  function LiteralSpans(s: string, i: nat): (spans: seq<Span>)
    requires i <= |s|
    ensures Ordered(s, i, spans)
    decreases |s| - i
  {
    match NextQuote(s, i)
    case None => []
    case Some(a) =>
      match NextQuote(s, a + 1)
      case None => []
      case Some(b) =>
        var rest := LiteralSpans(s, b + 1);
        [Span(a, b + 1)] + rest
  }

  /** The text a span covers. */
  function Matched(s: string, m: Span): string
    requires m.start <= m.end <= |s|
  {
    s[m.start..m.end]
  }

  /**
   * What a replace-all has produced after the first n matches: s up to the end of the
   * n-th span, with the k-th span (from 0) replaced by repl[k].
   */
  function Splice(s: string, spans: seq<Span>, n: nat, repl: seq<string>): string
    requires Ordered(s, 0, spans) && n <= |spans| && n <= |repl|
  {
    if n == 0 then []
    else Splice(s, spans, n - 1, repl) + s[Before(spans, n - 1, 0)..spans[n - 1].start] + repl[n - 1]
  }

  /** The variable the k-th literal becomes: "_s" + strconv.Itoa(k). */
  function Placeholder(k: nat): string {
    "_s" + Itoa(k)
  }

  /** Placeholder(from), ..., Placeholder(from + n - 1). */
  function Placeholders(from: nat, n: nat): (r: seq<string>)
    ensures |r| == n
    decreases n
  {
    if n == 0 then [] else [Placeholder(from)] + Placeholders(from + 1, n - 1)
  }

  /** The binding lines for the first n matches: `_sk:=<k-th match>`. */
  function BindingLines(s: string, spans: seq<Span>, n: nat): seq<string>
    requires Ordered(s, 0, spans) && n <= |spans|
  {
    if n == 0 then []
    else BindingLines(s, spans, n - 1) + [Placeholder(n) + ":=" + Matched(s, spans[n - 1])]
  }

  /** The rewritten expression and the binding lines recorded for it. */
  datatype Hoisted = Hoisted(text: string, bindings: seq<string>)

  /** What the hoisting step produces: the k-th match replaced by _sk, with a binding for each. */
  function Hoist(s: string): Hoisted {
    var spans := LiteralSpans(s, 0);
    Hoisted(Splice(s, spans, |spans|, Placeholders(1, |spans|)) + s[Before(spans, |spans|, 0)..],
            BindingLines(s, spans, |spans|))
  }

  lemma {:induction false} PlaceholdersAt(from: nat, n: nat, j: nat)
    requires j < n
    ensures Placeholders(from, n)[j] == Placeholder(from + j)
    decreases n
  {
    if j > 0 {
      PlaceholdersAt(from + 1, n - 1, j - 1);
    }
  }

  /**
   * The replace-all with the closure of grun.go:138-145: for each match, count it, record
   * `_s<kount>:=<match>` and put `_s<kount>` in its place.
   */
  method HoistLiterals(expr: string) returns (final: string, lines: seq<string>)
    ensures Hoisted(final, lines) == Hoist(expr)
  {
    var spans := LiteralSpans(expr, 0);
    ghost var names := Placeholders(1, |spans|);
    final, lines := "", [];
    var kount := 0;
    var last := 0;
    while kount < |spans|
      invariant kount <= |spans| && last == Before(spans, kount, 0)
      invariant final == Splice(expr, spans, kount, names)
      invariant lines == BindingLines(expr, spans, kount)
    {
      var m := spans[kount];
      PlaceholdersAt(1, |spans|, kount);
      kount := kount + 1;
      var svar := "_s" + Itoa(kount);
      lines := lines + [svar + ":=" + expr[m.start..m.end]];
      final := final + expr[last..m.start] + svar;
      last := m.end;
    }
    final := final + expr[last..];
  }

  // ---------------------------------------------------------------------------
  // What hoisting guarantees
  // ---------------------------------------------------------------------------

  /** A match: a quote, characters other than a quote, a quote. */
  ghost predicate IsLiteral(t: string) {
    && |t| >= 2 && t[0] == '"' && t[|t| - 1] == '"'
    && forall j :: 0 < j < |t| - 1 ==> t[j] != '"'
  }

  lemma NoQuote(t: string)
    requires forall j :: 0 <= j < |t| ==> t[j] != '"'
    ensures '"' !in t && multiset(t)['"'] == 0
  {
  }

  lemma OneQuote(s: string, i: nat, a: nat)
    requires i <= a < |s| && s[a] == '"'
    requires forall j :: i <= j < |s| && j != a ==> s[j] != '"'
    ensures multiset(s[i..])['"'] == 1
  {
    assert s[i..] == s[i..a] + [s[a]] + s[a + 1..];
    NoQuote(s[i..a]);
    NoQuote(s[a + 1..]);
  }

  lemma TwoQuotes(s: string, i: nat, a: nat, b: nat)
    requires i <= a < b < |s| && s[a] == '"' && s[b] == '"'
    ensures multiset(s[i..])['"'] >= 2
  {
    assert s[i..] == s[i..a] + [s[a]] + s[a + 1..b] + [s[b]] + s[b + 1..];
  }

  /** Every match is a literal. */
  ghost predicate AllLiterals(s: string, spans: seq<Span>) {
    forall j :: 0 <= j < |spans| && spans[j].start <= spans[j].end <= |s| ==> IsLiteral(Matched(s, spans[j]))
  }

  /** The text before each match holds no quote. */
  ghost predicate QuoteFreeGaps(s: string, i: nat, spans: seq<Span>)
    requires Ordered(s, i, spans)
  {
    forall j {:trigger Before(spans, j, i)} :: 0 <= j < |spans| ==> '"' !in s[Before(spans, j, i)..spans[j].start]
  }

  lemma SpansHead(s: string, i: nat, a: nat, b: nat)
    requires i <= a < b < |s|
    requires NextQuote(s, i) == Some(a) && NextQuote(s, a + 1) == Some(b)
    ensures IsLiteral(s[a..b + 1]) && '"' !in s[i..a]
  {
    NextQuoteIsFirst(s, i);
    NextQuoteIsFirst(s, a + 1);
    NoQuote(s[i..a]);
  }

  /** The spans found from i are the first one followed by those found after it. */
  lemma SpansUnfold(s: string, i: nat) returns (a: nat, b: nat)
    requires i <= |s| && LiteralSpans(s, i) != []
    ensures i <= a < b < |s| && NextQuote(s, i) == Some(a) && NextQuote(s, a + 1) == Some(b)
    ensures LiteralSpans(s, i) == [Span(a, b + 1)] + LiteralSpans(s, b + 1)
  {
    a := NextQuote(s, i).value;
    b := NextQuote(s, a + 1).value;
  }

  lemma {:induction false} SpansAreLiterals(s: string, i: nat)
    requires i <= |s|
    ensures AllLiterals(s, LiteralSpans(s, i))
    decreases |s| - i
  {
    if LiteralSpans(s, i) != [] {
      var a, b := SpansUnfold(s, i);
      SpansAreLiterals(s, b + 1);
      SpansHead(s, i, a, b);
      var spans := LiteralSpans(s, i);
      var rest := LiteralSpans(s, b + 1);
      forall j | 0 <= j < |spans| && spans[j].start <= spans[j].end <= |s|
        ensures IsLiteral(Matched(s, spans[j]))
      {
        if j > 0 {
          assert spans[j] == rest[j - 1];
        }
      }
    }
  }

  lemma {:induction false} SpansGaps(s: string, i: nat)
    requires i <= |s|
    ensures QuoteFreeGaps(s, i, LiteralSpans(s, i))
    decreases |s| - i
  {
    if LiteralSpans(s, i) != [] {
      var a, b := SpansUnfold(s, i);
      SpansGaps(s, b + 1);
      SpansHead(s, i, a, b);
      var spans := LiteralSpans(s, i);
      var rest := LiteralSpans(s, b + 1);
      forall j | 0 <= j < |spans|
        ensures '"' !in s[Before(spans, j, i)..spans[j].start]
      {
        if j > 0 {
          assert spans[j] == rest[j - 1];
          assert Before(spans, j, i) == Before(rest, j - 1, b + 1);
        }
      }
    }
  }

  /** The text after the last match holds at most one quote (one that nothing closes). */
  lemma {:induction false} SpansTail(s: string, i: nat)
    requires i <= |s|
    ensures var spans := LiteralSpans(s, i); multiset(s[Before(spans, |spans|, i)..])['"'] <= 1
    decreases |s| - i
  {
    if LiteralSpans(s, i) != [] {
      var a, b := SpansUnfold(s, i);
      SpansTail(s, b + 1);
      var rest := LiteralSpans(s, b + 1);
      assert Before([Span(a, b + 1)] + rest, |rest| + 1, i) == Before(rest, |rest|, b + 1);
    } else {
      NextQuoteIsFirst(s, i);
      var a := NextQuote(s, i);
      if a.None? {
        NoQuote(s[i..]);
      } else {
        NextQuoteIsFirst(s, a.value + 1);
        OneQuote(s, i, a.value);
      }
    }
  }

  /** A text with at most one quote holds no literal. */
  lemma FewQuotesNoLiteral(s: string, i: nat)
    requires i <= |s|
    requires multiset(s[i..])['"'] <= 1
    ensures LiteralSpans(s, i) == []
  {
    var a := NextQuote(s, i);
    if a.Some? && NextQuote(s, a.value + 1).Some? {
      TwoQuotes(s, i, a.value, NextQuote(s, a.value + 1).value);
      assert false;
    }
  }

  lemma SliceThree(s: string, a: nat, b: nat, c: nat)
    requires a <= b <= c <= |s|
    ensures s[..c] == s[..a] + s[a..b] + s[b..c]
  {
  }

  lemma NotInThree(x: string, y: string, z: string)
    requires '"' !in x && '"' !in y && '"' !in z
    ensures '"' !in x + y + z
  {
  }

  /** Putting each match back in its place rebuilds the text. */
  lemma {:induction false} SpliceRestores(s: string, spans: seq<Span>, n: nat, repl: seq<string>)
    requires Ordered(s, 0, spans) && n <= |spans| && n <= |repl|
    requires forall j :: 0 <= j < n ==> repl[j] == Matched(s, spans[j])
    ensures Splice(s, spans, n, repl) == s[..Before(spans, n, 0)]
    decreases n
  {
    if n > 0 {
      SpliceRestores(s, spans, n - 1, repl);
      var m := spans[n - 1];
      SliceThree(s, Before(spans, n - 1, 0), m.start, m.end);
    }
  }

  /** Quote-free gaps and quote-free replacements give a quote-free text. */
  lemma {:induction false} SpliceQuoteFree(s: string, spans: seq<Span>, n: nat, repl: seq<string>)
    requires Ordered(s, 0, spans) && n <= |spans| && n <= |repl|
    requires QuoteFreeGaps(s, 0, spans)
    requires forall j :: 0 <= j < n ==> '"' !in repl[j]
    ensures '"' !in Splice(s, spans, n, repl)
    decreases n
  {
    if n > 0 {
      SpliceQuoteFree(s, spans, n - 1, repl);
      NotInThree(Splice(s, spans, n - 1, repl), s[Before(spans, n - 1, 0)..spans[n - 1].start], repl[n - 1]);
    }
  }

  lemma {:induction false} BindingLinesAt(s: string, spans: seq<Span>, n: nat, j: nat)
    requires Ordered(s, 0, spans) && j < n <= |spans|
    ensures |BindingLines(s, spans, n)| == n
    ensures BindingLines(s, spans, n)[j] == Placeholder(j + 1) + ":=" + Matched(s, spans[j])
    decreases n
  {
    if j < n - 1 {
      BindingLinesAt(s, spans, n - 1, j);
    } else if n > 1 {
      BindingLinesAt(s, spans, n - 1, 0);
    }
  }

  lemma PlaceholderNoQuote(k: nat)
    ensures '"' !in Placeholder(k)
  {
    var p := Placeholder(k);
    assert forall j :: 2 <= j < |p| ==> p[j] == Itoa(k)[j - 2];
  }

  /** Distinct counters give distinct variables. */
  lemma PlaceholdersDistinct(i: nat, j: nat)
    requires i != j
    ensures Placeholder(i) != Placeholder(j)
  {
    if Placeholder(i) == Placeholder(j) {
      assert Itoa(i) == Placeholder(i)[2..];
      ItoaInjective(i, j);
    }
  }

  /** The k-th match, for every k: what the bindings bind. */
  function MatchedAll(s: string, spans: seq<Span>): (lits: seq<string>)
    requires Ordered(s, 0, spans)
    ensures |lits| == |spans|
    ensures forall j :: 0 <= j < |spans| ==> lits[j] == Matched(s, spans[j])
  {
    seq(|spans|, j requires 0 <= j < |spans| => Matched(s, spans[j]))
  }

  /**
   * With n matches there are n bindings, and the k-th (from 1) binds _sk to the k-th
   * match, which is a literal.
   */
  lemma HoistBindings(s: string)
    ensures var spans := LiteralSpans(s, 0);
            && |Hoist(s).bindings| == |spans|
            && forall j :: 0 <= j < |spans| ==>
                 IsLiteral(Matched(s, spans[j])) && Hoist(s).bindings[j] == Placeholder(j + 1) + ":=" + Matched(s, spans[j])
  {
    var spans := LiteralSpans(s, 0);
    SpansAreLiterals(s, 0);
    if |spans| > 0 {
      BindingLinesAt(s, spans, |spans|, 0);
    }
    forall j | 0 <= j < |spans|
      ensures Hoist(s).bindings[j] == Placeholder(j + 1) + ":=" + Matched(s, spans[j])
    {
      BindingLinesAt(s, spans, |spans|, j);
    }
  }

  /**
   * The round trip: the hoisted text is the original with the k-th match replaced by _sk,
   * and splicing the matches back into the same places gives the original.
   */
  lemma HoistRestores(s: string)
    ensures var spans := LiteralSpans(s, 0);
            && Hoist(s).text == Splice(s, spans, |spans|, Placeholders(1, |spans|)) + s[Before(spans, |spans|, 0)..]
            && s == Splice(s, spans, |spans|, MatchedAll(s, spans)) + s[Before(spans, |spans|, 0)..]
  {
    var spans := LiteralSpans(s, 0);
    var b := Before(spans, |spans|, 0);
    SpliceRestores(s, spans, |spans|, MatchedAll(s, spans));
    assert s == s[..b] + s[b..];
  }

  /** A text with no quote (or a single unmatched one) is unchanged and gives no bindings. */
  lemma HoistWithoutLiterals(s: string)
    requires multiset(s)['"'] <= 1
    ensures Hoist(s) == Hoisted(s, [])
  {
    assert s[0..] == s;
    FewQuotesNoLiteral(s, 0);
  }

  lemma CountAppend(x: string, y: string)
    requires '"' !in x && multiset(y)['"'] <= 1
    ensures multiset(x + y)['"'] <= 1
  {
    assert multiset(x + y) == multiset(x) + multiset(y);
  }

  /** The hoisted text holds at most one quote. */
  lemma HoistTextQuotes(s: string)
    ensures multiset(Hoist(s).text)['"'] <= 1
  {
    var spans := LiteralSpans(s, 0);
    var names := Placeholders(1, |spans|);
    SpansGaps(s, 0);
    SpansTail(s, 0);
    forall j | 0 <= j < |spans|
      ensures '"' !in names[j]
    {
      PlaceholdersAt(1, |spans|, j);
      PlaceholderNoQuote(1 + j);
    }
    SpliceQuoteFree(s, spans, |spans|, names);
    CountAppend(Splice(s, spans, |spans|, names), s[Before(spans, |spans|, 0)..]);
  }

  /**
   * Literal safety: no literal is left in the hoisted text for the later rewrites to see,
   * and hoisting it again changes nothing.
   */
  lemma HoistLeavesNoLiteral(s: string)
    ensures LiteralSpans(Hoist(s).text, 0) == []
    ensures Hoist(Hoist(s).text) == Hoisted(Hoist(s).text, [])
  {
    var t := Hoist(s).text;
    HoistTextQuotes(s);
    HoistWithoutLiterals(t);
    assert t[0..] == t;
    FewQuotesNoLiteral(t, 0);
  }
}
