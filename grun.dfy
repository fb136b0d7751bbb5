/**
 * grun's expression-to-program synthesiser (the body of `main`, grun.go:115-216): the
 * expression, or a file's non-comment lines joined by `;`, is rewritten, split into
 * statements and an expression, and the packages it mentions are collected and resolved
 * into the `Data` record the program template is filled from.
 */
module Grun {
  import opened Wrappers
  import opened GoStrings
  import opened Util
  import opened Literals
  import opened Shortcuts
  import opened Statements

  // ===========================================================================
  // Comment lines: `^\s*//.*`
  // ===========================================================================

  /** A line comment must begin the line: `\s` characters, then `//`. */
  predicate IsCommentLine(s: string) {
    var e := SpaceEnd(s, 0);
    e + 2 <= |s| && s[e] == '/' && s[e + 1] == '/'
  }

  /** The lines the file filter keeps. */
  predicate IsCodeLine(s: string) {
    !IsCommentLine(s)
  }

  // `^\s*//` matches exactly the lines that start with spaces and then `//`.
  lemma CommentLineSpec(s: string)
    ensures IsCommentLine(s) <==> exists k :: 0 <= k && k + 2 <= |s| && AllSpace(s, 0, k) && s[k] == '/' && s[k + 1] == '/'
  {
    if exists k :: 0 <= k && k + 2 <= |s| && AllSpace(s, 0, k) && s[k] == '/' && s[k + 1] == '/' {
      var k :| 0 <= k && k + 2 <= |s| && AllSpace(s, 0, k) && s[k] == '/' && s[k + 1] == '/';
      SpaceEndIs(s, 0, k);
    }
  }

  /** grun.go:129-133: the file's lines without the comment lines, joined with `;`. */
  function FileExpression(contents: string): string {
    Join(Filter(Split(contents, '\n'), IsCodeLine), ';')
  }

  /**
   * The file's expression is made of its non-comment lines, in order, each as often as the
   * file holds it, and of nothing else: when no kept line holds a `;`, splitting on `;`
   * gives those lines back.
   */
  lemma FileExpressionLines(contents: string)
    ensures var kept := Filter(Split(contents, '\n'), IsCodeLine);
            && (forall l :: l in kept <==> l in Split(contents, '\n') && !IsCommentLine(l))
            && (forall l :: multiset(kept)[l] == if IsCommentLine(l) then 0 else multiset(Split(contents, '\n'))[l])
            && IsSubsequence(kept, Split(contents, '\n'))
            && (kept != [] && (forall i :: 0 <= i < |kept| ==> ';' !in kept[i]) ==> Split(FileExpression(contents), ';') == kept)
  {
    var kept := Filter(Split(contents, '\n'), IsCodeLine);
    FilterCounts(Split(contents, '\n'), IsCodeLine);
    if kept != [] && (forall i :: 0 <= i < |kept| ==> ';' !in kept[i]) {
      SplitJoin(kept, ';');
    }
  }

  // ===========================================================================
  // `\bargs\b`
  // ===========================================================================

  /** The word `args` stands at i, with a word boundary on both sides. */
  predicate ArgsAt(s: string, i: nat) {
    && i + 4 <= |s| && s[i] == 'a' && s[i + 1] == 'r' && s[i + 2] == 'g' && s[i + 3] == 's'
    && (i == 0 || !IsWordChar(s[i - 1]))
    && (i + 4 == |s| || !IsWordChar(s[i + 4]))
  }

  function UsesArgsFrom(s: string, i: nat): bool
    requires i <= |s|
    decreases |s| - i
  {
    if i == |s| then false else ArgsAt(s, i) || UsesArgsFrom(s, i + 1)
  }

  /** grun.go:153: MatchString with `\bargs\b`. */
  function UsesArgs(s: string): bool {
    UsesArgsFrom(s, 0)
  }

  lemma {:induction false} UsesArgsFromSpec(s: string, i: nat)
    requires i <= |s|
    ensures UsesArgsFrom(s, i) <==> exists k :: i <= k < |s| && ArgsAt(s, k)
    decreases |s| - i
  {
    if i < |s| {
      UsesArgsFromSpec(s, i + 1);
    }
  }

  /** `args` is found exactly when it occurs as a whole word. */
  lemma UsesArgsSpec(s: string)
    ensures UsesArgs(s) <==> exists k :: 0 <= k < |s| && ArgsAt(s, k)
  {
    UsesArgsFromSpec(s, 0);
  }

  // ===========================================================================
  // Qualifiers: FindAllString with `\b[a-z]\w+\.`
  // ===========================================================================

  /** The character before i is not a word character (or there is none): `\b` before a word character. */
  predicate BoundaryBefore(s: string, i: nat)
    requires i <= |s|
  {
    i == 0 || !IsWordChar(s[i - 1])
  }

  /** A qualifier s[p..e]: a lower-case letter, at least one more word character, a dot. */
  ghost predicate IsQualifierAt(s: string, p: nat, e: nat) {
    && p + 3 <= e <= |s| && BoundaryBefore(s, p) && IsLower(s[p])
    && AllWord(s, p + 1, e - 1) && s[e - 1] == '.'
  }

  /** The match at p, if any: where it ends. */
  function QualifierAt(s: string, p: nat): (e: Option<nat>)
    requires p <= |s|
    ensures e.Some? ==> p + 3 <= e.value <= |s|
  {
    if p < |s| && BoundaryBefore(s, p) && IsLower(s[p]) then
      var w := WordEnd(s, p + 1);
      if w >= p + 2 && w < |s| && s[w] == '.' then Some(w + 1) else None
    else None
  }

  lemma QualifierAtSpec(s: string, p: nat, e: nat)
    requires p <= |s|
    ensures QualifierAt(s, p) == Some(e) <==> IsQualifierAt(s, p, e)
  {
    if IsQualifierAt(s, p, e) {
      WordEndIs(s, p + 1, e - 1);
    }
  }

  /** The matches from p on, leftmost first and non-overlapping. */
  function QualifiersFrom(s: string, p: nat): seq<string>
    requires p <= |s|
    decreases |s| - p
  {
    if p == |s| then []
    else match QualifierAt(s, p)
      case Some(e) => [s[p..e]] + QualifiersFrom(s, e)
      case None => QualifiersFrom(s, p + 1)
  }

  function Qualifiers(s: string): seq<string> {
    QualifiersFrom(s, 0)
  }

  /** A qualifier as a string: lower-case letter, one or more word characters, a dot. */
  ghost predicate IsQualifier(q: string) {
    |q| >= 3 && IsLower(q[0]) && q[|q| - 1] == '.' && forall j :: 0 <= j < |q| - 1 ==> IsWordChar(q[j])
  }

  /** The qualifier q stands in s at k, at a word boundary. */
  ghost predicate QualifierOccurs(s: string, q: string, k: nat) {
    IsQualifierAt(s, k, k + |q|) && s[k..k + |q|] == q
  }

  /**
   * Every collected qualifier is one (so a one-letter `m.` never is) and stands in s at a
   * word boundary.
   */
  lemma {:induction false} QualifiersFromSound(s: string, p: nat)
    requires p <= |s|
    ensures forall q :: q in QualifiersFrom(s, p) ==>
      IsQualifier(q) && exists k: nat :: p <= k && QualifierOccurs(s, q, k)
    decreases |s| - p
  {
    if p < |s| {
      match QualifierAt(s, p)
      case Some(e) =>
        QualifiersFromSound(s, e);
        QualifierAtSpec(s, p, e);
        var q := s[p..e];
        assert forall j :: 0 <= j < |q| - 1 ==> q[j] == s[p + j];
        assert QualifierOccurs(s, q, p);
      case None =>
        QualifiersFromSound(s, p + 1);
    }
  }

  lemma QualifiersSound(s: string)
    ensures forall q :: q in Qualifiers(s) ==>
      IsQualifier(q) && exists k: nat :: QualifierOccurs(s, q, k)
  {
    QualifiersFromSound(s, 0);
  }

  /** One step of the scan when a qualifier starts at p. */
  lemma QualifiersFromHit(s: string, p: nat, e: nat)
    requires p < |s| && QualifierAt(s, p) == Some(e)
    ensures QualifiersFrom(s, p) == [s[p..e]] + QualifiersFrom(s, e)
  {
  }

  /** One step of the scan when no qualifier starts at p. */
  lemma QualifiersFromMiss(s: string, p: nat)
    requires p < |s| && QualifierAt(s, p).None?
    ensures QualifiersFrom(s, p) == QualifiersFrom(s, p + 1)
  {
  }

  /**
   * The scan from p does not jump over a position k after a non-word character: a match
   * that starts before k ends by k. So all that the scan from k collects, the scan from p
   * collects too.
   */
  lemma {:induction false} QualifiersReach(s: string, p: nat, k: nat)
    requires p <= k <= |s| && (k == 0 || !IsWordChar(s[k - 1]))
    ensures forall q :: q in QualifiersFrom(s, k) ==> q in QualifiersFrom(s, p)
    decreases k - p
  {
    if p < k {
      var r := QualifierAt(s, p);
      if r.Some? {
        var e := r.value;
        QualifierAtSpec(s, p, e);
        assert e <= k;
        QualifiersReach(s, e, k);
        QualifiersFromHit(s, p, e);
      } else {
        QualifiersReach(s, p + 1, k);
        QualifiersFromMiss(s, p);
      }
    }
  }

  /** A qualifier standing in s at a word boundary is collected. */
  lemma QualifiersComplete(s: string, q: string, k: nat)
    requires QualifierOccurs(s, q, k)
    ensures q in Qualifiers(s)
  {
    QualifierAtSpec(s, k, k + |q|);
    if k < |s| {
      QualifiersFromHit(s, k, k + |q|);
    }
    QualifiersReach(s, 0, k);
  }

  /**
   * FindAllString with `\b[a-z]\w+\.` as a set: q is collected exactly when it stands in s at
   * a word boundary, a lower-case letter, one or more word characters and a dot.
   */
  lemma QualifiersSpec(s: string, q: string)
    ensures q in Qualifiers(s) <==> exists k: nat :: QualifierOccurs(s, q, k)
  {
    QualifiersSound(s);
    if k: nat :| QualifierOccurs(s, q, k) {
      QualifiersComplete(s, q, k);
    }
  }

  /** Where the scan from p finds each of its matches. */
  ghost function QualifierStarts(s: string, p: nat): seq<nat>
    requires p <= |s|
    decreases |s| - p
  {
    if p == |s| then []
    else match QualifierAt(s, p)
      case Some(e) => [p] + QualifierStarts(s, e)
      case None => QualifierStarts(s, p + 1)
  }

  /** No qualifier starts strictly inside another one. */
  lemma NoQualifierInside(s: string, p: nat, e: nat, k: nat, e2: nat)
    requires IsQualifierAt(s, p, e) && p < k < e
    ensures !IsQualifierAt(s, k, e2)
  {
    if k < e - 1 {
      assert IsWordChar(s[k - 1]);
    }
  }

  /** Each qs[i] stands in s at ks[i], from p on. */
  ghost predicate StandAt(s: string, p: nat, qs: seq<string>, ks: seq<nat>)
    requires |ks| == |qs|
  {
    forall i :: 0 <= i < |ks| ==> p <= ks[i] && QualifierOccurs(s, qs[i], ks[i])
  }

  /** Each qs[i] placed at ks[i] ends before the next one starts. */
  ghost predicate LeftToRight(qs: seq<string>, ks: seq<nat>)
    requires |ks| == |qs|
  {
    forall i, j :: 0 <= i < j < |ks| ==> ks[i] + |qs[i]| <= ks[j]
  }

  /**
   * qs are the qualifiers standing in s at the positions ks, from p on, left to right and
   * without overlapping.
   */
  ghost predicate InTextOrder(s: string, p: nat, qs: seq<string>, ks: seq<nat>) {
    |ks| == |qs| && StandAt(s, p, qs, ks) && LeftToRight(qs, ks)
  }

  lemma StandAtCons(s: string, p: nat, e: nat, qs: seq<string>, ks: seq<nat>)
    requires IsQualifierAt(s, p, e) && |ks| == |qs| && StandAt(s, e, qs, ks)
    ensures StandAt(s, p, [s[p..e]] + qs, [p] + ks)
  {
    var qs2 := [s[p..e]] + qs;
    var ks2 := [p] + ks;
    forall i | 0 <= i < |ks2|
      ensures p <= ks2[i] && QualifierOccurs(s, qs2[i], ks2[i])
    {
      if i > 0 {
        assert qs2[i] == qs[i - 1] && ks2[i] == ks[i - 1];
      }
    }
  }

  lemma LeftToRightCons(p: nat, e: nat, q: string, qs: seq<string>, ks: seq<nat>)
    requires p + |q| == e && |ks| == |qs| && LeftToRight(qs, ks)
    requires forall i :: 0 <= i < |ks| ==> e <= ks[i]
    ensures LeftToRight([q] + qs, [p] + ks)
  {
    var qs2 := [q] + qs;
    var ks2 := [p] + ks;
    forall i, j | 0 <= i < j < |ks2|
      ensures ks2[i] + |qs2[i]| <= ks2[j]
    {
      assert ks2[j] == ks[j - 1];
      if i > 0 {
        assert qs2[i] == qs[i - 1] && ks2[i] == ks[i - 1];
      }
    }
  }

  /** A match from p to e, followed by matches in text order from e on, is in text order from p on. */
  lemma InTextOrderCons(s: string, p: nat, e: nat, qs: seq<string>, ks: seq<nat>)
    requires IsQualifierAt(s, p, e) && InTextOrder(s, e, qs, ks)
    ensures InTextOrder(s, p, [s[p..e]] + qs, [p] + ks)
  {
    StandAtCons(s, p, e, qs, ks);
    LeftToRightCons(p, e, s[p..e], qs, ks);
  }

  /** Matches in text order from p + 1 on are in text order from p on. */
  lemma InTextOrderFrom(s: string, p: nat, qs: seq<string>, ks: seq<nat>)
    requires InTextOrder(s, p + 1, qs, ks)
    ensures InTextOrder(s, p, qs, ks)
  {
  }

  /**
   * FindAllString with `\b[a-z]\w+\.` as a list: the i-th qualifier collected from p on
   * stands in s at its start position. The matches follow one another left to right without
   * overlapping, and every qualifier occurrence from p on is one of them.
   */
  lemma {:induction false} QualifiersFromInOrder(s: string, p: nat)
    requires p <= |s|
    ensures InTextOrder(s, p, QualifiersFrom(s, p), QualifierStarts(s, p))
    ensures forall k, e :: p <= k && IsQualifierAt(s, k, e) ==> k in QualifierStarts(s, p)
    decreases |s| - p
  {
    if p < |s| {
      match QualifierAt(s, p)
      case Some(e) =>
        QualifierAtSpec(s, p, e);
        QualifiersFromHit(s, p, e);
        QualifiersFromInOrder(s, e);
        InTextOrderCons(s, p, e, QualifiersFrom(s, e), QualifierStarts(s, e));
        var ks := QualifierStarts(s, p);
        assert ks == [p] + QualifierStarts(s, e);
        forall k, e2 | p <= k && IsQualifierAt(s, k, e2)
          ensures k in ks
        {
          if p < k < e {
            NoQualifierInside(s, p, e, k, e2);
          }
        }
      case None =>
        QualifiersFromMiss(s, p);
        QualifiersFromInOrder(s, p + 1);
        InTextOrderFrom(s, p, QualifiersFrom(s, p + 1), QualifierStarts(s, p + 1));
        forall e2 | IsQualifierAt(s, p, e2)
          ensures false
        {
          QualifierAtSpec(s, p, e2);
        }
    }
  }

  /** The qualifiers of s, each at its start, in the order in which they stand in s. */
  lemma QualifiersInOrder(s: string)
    ensures var qs := Qualifiers(s);
            var ks := QualifierStarts(s, 0);
            && |ks| == |qs|
            && (forall i :: 0 <= i < |ks| ==> QualifierOccurs(s, qs[i], ks[i]))
            && (forall i, j :: 0 <= i < j < |ks| ==> ks[i] + |qs[i]| <= ks[j])
            && (forall k, e :: IsQualifierAt(s, k, e) ==> k in ks)
  {
    QualifiersFromInOrder(s, 0);
  }

  // ===========================================================================
  // The synthesis
  // ===========================================================================

  /** What `main` works from: the flags, the file's contents and the package catalog. */
  datatype Invocation = Invocation(
    expr: string,                 // -e
    file: string,                 // -f
    contents: string,             // what ioutil.ReadFile returned for the file
    jsonOut: bool,                // -j
    jsonFlat: bool,               // -J
    packages: map<string, string>)

  /** The record the program template is filled from (grun.go:16-23). */
  datatype Data = Data(imports: seq<string>, lines: seq<string>, expr: string, json: bool, flat: bool, args: bool)

  const USAGE := "provide expression with -e or file to run with -f"

  /** The expression to work on: the file's non-comment lines when a file is given (grun.go:123-134). */
  function SourceText(inv: Invocation): string {
    if inv.file != "" then FileExpression(inv.contents) else inv.expr
  }

  /** The rewritten text and the literal bindings (grun.go:138-152). */
  function Rewrite(src: string): Hoisted {
    var h := Hoist(src);
    Hoisted(ExpandAliases(ExpandRegexShortcut(h.text)), h.bindings)
  }

  /**
   * The text the shortcut rewrites leave, which the `args` test, the statement split and the
   * qualifier scan read, holds at most one quote and so no string literal: every literal's
   * contents are only in the bindings.
   */
  lemma RewriteLeavesNoLiteral(src: string)
    ensures multiset(Rewrite(src).text)['"'] <= 1
    ensures LiteralSpans(Rewrite(src).text, 0) == []
    ensures Hoist(Rewrite(src).text) == Hoisted(Rewrite(src).text, [])
  {
    var h := Hoist(src).text;
    HoistTextQuotes(src);
    RegexShortcutQuotes(h);
    AliasesQuotes(ExpandRegexShortcut(h));
    var t := Rewrite(src).text;
    assert t[0..] == t;
    FewQuotesNoLiteral(t, 0);
    HoistWithoutLiterals(t);
  }

  /** The expression and what the statements before it contribute. */
  datatype Body = Body(expression: string, lines: seq<string>, receivers: seq<string>, autoLog: bool)

  /**
   * grun.go:154-181. Without `;` the text is the expression, untrimmed, and the bindings
   * are the lines. With `;` the bindings and the `;` pieces are one list. Its last element,
   * trimmed, is the expression and every other element is a statement.
   */
  function SplitOff(final: string, bindings: seq<string>): Body {
    if ';' in final then SplitAt(bindings + Split(final, ';')) else Body(final, bindings, [], false)
  }

  /** The last element of the list, trimmed, is the expression, and the others are statements. */
  function SplitAt(all: seq<string>): Body
    requires |all| > 0
  {
    var o := ProcessAll(all[..|all| - 1]);
    Body(TrimSpace(all[|all| - 1]), o.lines, o.receivers, o.autoLog)
  }

  /** The module list before de-duplication (grun.go:183-193). */
  function Candidates(final: string, usesArgs: bool, json: bool, autoLog: bool): seq<string> {
    Qualifiers(final) + ["fmt."] + (if usesArgs then ["os."] else []) + (if json then ["json.", "bytes."] else [])
      + (if autoLog then ["log."] else [])
  }

  /** grun.go:194-195. */
  function Modules(final: string, usesArgs: bool, json: bool, body: Body): seq<string> {
    RemoveStrings(Dedup(Candidates(final, usesArgs, json, body.autoLog)), body.receivers)
  }

  /** The import path for a module: the catalog's entry for its bare name, else the bare name (grun.go:202-206). */
  function Resolve(packages: map<string, string>, m: string): string {
    var name := TrimDots(m);
    if name in packages then packages[name] else name
  }

  function ResolveAll(packages: map<string, string>, mods: seq<string>): (imports: seq<string>)
    ensures |imports| == |mods|
    decreases |mods|
  {
    if mods == [] then [] else ResolveAll(packages, mods[..|mods| - 1]) + [Resolve(packages, mods[|mods| - 1])]
  }

  /** The rewritten source of an invocation. */
  function Rewritten(inv: Invocation): Hoisted {
    Rewrite(SourceText(inv))
  }

  /** The expression and the statement lines of an invocation. */
  function BodyOf(inv: Invocation): Body {
    SplitOff(Rewritten(inv).text, Rewritten(inv).bindings)
  }

  /** The modules an invocation imports, before they are resolved to paths. */
  function ModuleList(inv: Invocation): seq<string> {
    var text := Rewritten(inv).text;
    Modules(text, UsesArgs(text), inv.jsonOut || inv.jsonFlat, BodyOf(inv))
  }

  /** What `main` builds, or the usage error it stops with (grun.go:115-216). */
  function Synthesis(inv: Invocation): (r: Result<Data, string>)
    ensures r.Failure? <==> inv.expr == "" && inv.file == ""
    ensures r.Failure? ==> r.error == USAGE
    ensures r.Success? ==> r.value.json == (inv.jsonOut || inv.jsonFlat) && r.value.flat == inv.jsonFlat
    ensures r.Success? ==> |r.value.imports| == |ModuleList(inv)|
  {
    if inv.expr == "" && inv.file == "" then Failure(USAGE)
    else
      var body := BodyOf(inv);
      Success(Data(ResolveAll(inv.packages, ModuleList(inv)), body.lines, body.expression,
        inv.jsonOut || inv.jsonFlat, inv.jsonFlat, UsesArgs(Rewritten(inv).text)))
  }

  /** The body of the loop at grun.go:167-179 for one statement. */
  method CheckStatement(raw: string) returns (o: Outcome)
    ensures o == ProcessStatement(raw)
  {
    var l := TrimSpace(raw);
    var matches := FindStringSubmatch(l);
    o := Outcome([l], [], false);
    if matches.Some? {
      o := o.(receivers := [matches.value.groups.name + "."]);
      var err := matches.value.groups.second;
      if LooksLikeError(err) {
        o := o.(lines := o.lines + [Guard(err)], autoLog := true);
      }
    }
  }

  /** The loop of grun.go:166-180 over the statements. */
  method CheckStatements(extra: seq<string>) returns (lines: seq<string>, receivers: seq<string>, autoLog: bool)
    ensures Outcome(lines, receivers, autoLog) == ProcessAll(extra)
  {
    lines, receivers, autoLog := [], [], false;
    var i := 0;
    while i < |extra|
      invariant i <= |extra|
      invariant Outcome(lines, receivers, autoLog) == ProcessAll(extra[..i])
    {
      var o := CheckStatement(extra[i]);
      lines, receivers, autoLog := lines + o.lines, receivers + o.receivers, autoLog || o.autoLog;
      ProcessAllStep(extra, i);
      i := i + 1;
    }
    assert extra[..i] == extra;
  }

  /** grun.go:154-181: the expression and the statement lines. */
  method SplitStatements(final: string, bindings: seq<string>) returns (body: Body)
    ensures body == SplitOff(final, bindings)
  {
    if ';' in final {
      var lines := bindings + Split(final, ';');
      body := SplitOffAt(lines);
    } else {
      body := Body(final, bindings, [], false);
    }
  }

  /** grun.go:159-181, once the bindings and the pieces are one list. */
  method SplitOffAt(lines: seq<string>) returns (body: Body)
    requires |lines| > 0
    ensures body == SplitAt(lines)
  {
    var last := |lines| - 1;
    var expression := TrimSpace(lines[last]);
    var extra := lines[..last];
    var statements, receivers, autoLog := CheckStatements(extra);
    body := Body(expression, statements, receivers, autoLog);
  }

  /** grun.go:183-193: the modules the text and the flags call for. */
  method CollectModules(final: string, usesArgs: bool, json: bool, autoLog: bool) returns (mods: seq<string>)
    ensures mods == Candidates(final, usesArgs, json, autoLog)
  {
    mods := Qualifiers(final);
    mods := mods + ["fmt."];
    if usesArgs {
      mods := mods + ["os."];
    }
    if json {
      mods := mods + ["json.", "bytes."];
    }
    if autoLog {
      mods := mods + ["log."];
    }
  }

  /** The loop of grun.go:200-208. */
  method ResolveImports(packages: map<string, string>, mods: seq<string>) returns (imports: seq<string>)
    ensures imports == ResolveAll(packages, mods)
  {
    imports := [];
    var i := 0;
    while i < |mods|
      invariant i <= |mods|
      invariant imports == ResolveAll(packages, mods[..i])
    {
      var m := mods[i];
      m := TrimDots(m);
      if m in packages {
        m := packages[m];
      }
      imports := imports + [m];
      assert mods[..i + 1][..i] == mods[..i];
      i := i + 1;
    }
    assert mods[..i] == mods;
  }

  /** The body of `main` from the -J flag to the `Data` record (grun.go:115-216). */
  method Synthesize(inv: Invocation) returns (r: Result<Data, string>)
    ensures r == Synthesis(inv)
  {
    var jsonOut := inv.jsonOut;
    if inv.jsonFlat {
      jsonOut := true;
    }
    if inv.expr == "" && inv.file == "" {
      return Failure(USAGE);
    }
    var expr := inv.expr;
    if inv.file != "" {
      expr := FileExpression(inv.contents);
    }
    var final, bindings := HoistLiterals(expr);
    final := ExpandRegexShortcut(final);
    final := ExpandAliases(final);
    assert Hoisted(final, bindings) == Rewritten(inv);
    var usesArgs := UsesArgs(final);
    var body := SplitStatements(final, bindings);
    var mods := CollectModules(final, usesArgs, jsonOut, body.autoLog);
    mods := DedupStrings(mods);
    mods := RemoveStrings(mods, body.receivers);
    var imports := ResolveImports(inv.packages, mods);
    r := Success(Data(imports, body.lines, body.expression, jsonOut, inv.jsonFlat, usesArgs));
  }

  // ===========================================================================
  // What the synthesis guarantees
  // ===========================================================================

  /** Without `;` the rewritten text is the expression and the literal bindings are the only lines. */
  lemma ExpressionWithoutStatements(inv: Invocation)
    requires Synthesis(inv).Success? && ';' !in Rewritten(inv).text
    ensures Synthesis(inv).value.expr == Rewritten(inv).text
    ensures Synthesis(inv).value.lines == Rewritten(inv).bindings
    ensures BodyOf(inv).receivers == [] && !BodyOf(inv).autoLog
  {
  }

  /** The receivers "s1.", "s2.", ... of the first n literal bindings. */
  function BindingReceivers(n: nat): (r: seq<string>)
    ensures |r| == n
  {
    if n == 0 then [] else BindingReceivers(n - 1) + ["s" + Itoa(n) + "."]
  }

  /** bs are the binding lines of the literals lits: `_s1:=` lits[0], `_s2:=` lits[1], ... */
  ghost predicate BindsLiterals(bs: seq<string>, lits: seq<string>) {
    && |bs| == |lits|
    && forall j :: 0 <= j < |bs| ==> IsLiteral(lits[j]) && bs[j] == Placeholder(j + 1) + ":=" + lits[j]
  }

  /** A binding line is a statement of its own: kept as it is, receiver `sK.`, no guard. */
  lemma BindingProcessed(bs: seq<string>, lits: seq<string>, k: nat)
    requires BindsLiterals(bs, lits) && k < |bs|
    ensures ProcessAll(bs[..k + 1]) == Combine(ProcessAll(bs[..k]), Outcome([bs[k]], ["s" + Itoa(k + 1) + "."], false))
  {
    var lit := lits[k];
    assert bs[k] == "_s" + Itoa(k + 1) + ":=" + lit;
    BindingLineOutcome(Itoa(k + 1), lit);
    ProcessAllStep(bs, k);
  }

  lemma {:induction false} BindingsProcessed(bs: seq<string>, lits: seq<string>, n: nat)
    requires BindsLiterals(bs, lits) && n <= |bs|
    ensures ProcessAll(bs[..n]) == Outcome(bs[..n], BindingReceivers(n), false)
  {
    if n == 0 {
      assert bs[..0] == [];
    } else {
      BindingsProcessed(bs, lits, n - 1);
      BindingProcessed(bs, lits, n - 1);
      assert bs[..n] == bs[..n - 1] + [bs[n - 1]];
    }
  }

  /** The bindings Hoist makes are the binding lines of the literals it found. */
  lemma HoistBindsLiterals(s: string)
    ensures exists lits :: BindsLiterals(Hoist(s).bindings, lits)
  {
    HoistBindings(s);
    var spans := LiteralSpans(s, 0);
    assert BindsLiterals(Hoist(s).bindings, MatchedAll(s, spans));
  }

  /** Run through the statement loop, the bindings of a rewrite keep their lines and bind `s1`, `s2`, ... */
  lemma RewriteBindingsProcessed(src: string)
    ensures var bs := Rewrite(src).bindings;
            ProcessAll(bs) == Outcome(bs, BindingReceivers(|bs|), false)
  {
    var bs := Hoist(src).bindings;
    HoistBindsLiterals(src);
    var lits :| BindsLiterals(bs, lits);
    BindingsProcessed(bs, lits, |bs|);
    assert bs[..|bs|] == bs;
  }

  /**
   * With `;` the expression is the trimmed text after the last `;`. The lines are the
   * literal bindings, then the statements before the last `;` as the loop leaves them,
   * and every binding `_sK` is a receiver.
   */
  lemma ExpressionAfterLastSemicolon(inv: Invocation)
    requires Synthesis(inv).Success? && ';' in Rewritten(inv).text
    ensures var rw := Rewritten(inv);
            var pieces := Split(rw.text, ';');
            var rest := ProcessAll(pieces[..|pieces| - 1]);
            && Synthesis(inv).value.expr == TrimSpace(pieces[|pieces| - 1])
            && Synthesis(inv).value.lines == rw.bindings + rest.lines
            && BodyOf(inv).receivers == BindingReceivers(|rw.bindings|) + rest.receivers
            && BodyOf(inv).autoLog == rest.autoLog
  {
    var rw := Rewritten(inv);
    var pieces := Split(rw.text, ';');
    var all := rw.bindings + pieces;
    SplitAtPieces(rw.bindings, pieces);
    RewriteBindingsProcessed(SourceText(inv));
  }

  /** The statements of bindings + pieces are the bindings and all pieces but the last. */
  lemma SplitAtPieces(bindings: seq<string>, pieces: seq<string>)
    requires |pieces| > 0
    ensures var b := SplitAt(bindings + pieces);
            var rest := ProcessAll(pieces[..|pieces| - 1]);
            && b.expression == TrimSpace(pieces[|pieces| - 1])
            && b.lines == ProcessAll(bindings).lines + rest.lines
            && b.receivers == ProcessAll(bindings).receivers + rest.receivers
            && b.autoLog == (ProcessAll(bindings).autoLog || rest.autoLog)
  {
    var all := bindings + pieces;
    assert all[..|all| - 1] == bindings + pieces[..|pieces| - 1];
    assert all[|all| - 1] == pieces[|pieces| - 1];
    ProcessAllAppend(bindings, pieces[..|pieces| - 1]);
  }

  /**
   * The modules: each qualifier of the text, fmt, os when args is used, json and bytes for
   * JSON output, log when a guard went in. None is listed twice, none is a receiver, and
   * they keep the order in which they first occur.
   */
  lemma ModulesSpec(final: string, usesArgs: bool, json: bool, body: Body)
    ensures var mods := Modules(final, usesArgs, json, body);
            && (forall m :: m in mods <==>
                  (|| m in Qualifiers(final) || m == "fmt." || (usesArgs && m == "os.")
                   || (json && (m == "json." || m == "bytes.")) || (body.autoLog && m == "log."))
                  && m !in body.receivers)
            && NoDups(mods)
            && IsSubsequence(mods, Dedup(Candidates(final, usesArgs, json, body.autoLog)))
  {
    var c := Candidates(final, usesArgs, json, body.autoLog);
    DedupMembers(c);
    DedupNoDups(c);
  }

  /** Every module is a qualifier: a lower-case word followed by one dot. */
  lemma ModulesAreQualifiers(final: string, usesArgs: bool, json: bool, body: Body)
    ensures forall m :: m in Modules(final, usesArgs, json, body) ==> IsQualifier(m)
  {
    QualifiersSound(final);
    ModulesSpec(final, usesArgs, json, body);
    forall m | m in ["fmt.", "os.", "json.", "bytes.", "log."]
      ensures IsQualifier(m)
    {
    }
  }

  /** The imports follow the modules one for one. */
  lemma {:induction false} ResolveAllSpec(packages: map<string, string>, mods: seq<string>)
    ensures forall j :: 0 <= j < |mods| ==> ResolveAll(packages, mods)[j] == Resolve(packages, mods[j])
    decreases |mods|
  {
    if mods != [] {
      ResolveAllSpec(packages, mods[..|mods| - 1]);
    }
  }

  /** A qualifier resolves to the catalog's path for its name without the dot, or to that name. */
  lemma ResolveQualifier(packages: map<string, string>, q: string)
    requires IsQualifier(q)
    ensures var name := q[..|q| - 1];
            Resolve(packages, q) == if name in packages then packages[name] else name
  {
    var name := q[..|q| - 1];
    assert q == name + ".";
    TrimDotsQualifier(name);
  }

  /** path is the catalog's entry for m's name without its final dot, or that name. */
  ghost predicate ResolvedAs(packages: map<string, string>, m: string, path: string) {
    && |m| >= 3
    && var name := m[..|m| - 1];
       path == if name in packages then packages[name] else name
  }

  /** Qualifiers resolve one for one to the catalog's path for the name without the dot, or to that name. */
  lemma ResolveQualifiers(packages: map<string, string>, mods: seq<string>)
    requires forall m :: m in mods ==> IsQualifier(m)
    ensures var imports := ResolveAll(packages, mods);
            forall j :: 0 <= j < |mods| ==> ResolvedAs(packages, mods[j], imports[j])
  {
    ResolveAllSpec(packages, mods);
    forall j | 0 <= j < |mods|
      ensures ResolvedAs(packages, mods[j], Resolve(packages, mods[j]))
    {
      assert mods[j] in mods;
      ResolveQualifier(packages, mods[j]);
    }
  }

  /** Import j is the catalog's path for module j's bare name, or the bare name itself. */
  lemma ImportsResolved(inv: Invocation)
    requires Synthesis(inv).Success?
    ensures var mods := ModuleList(inv);
            var imports := Synthesis(inv).value.imports;
            forall j :: 0 <= j < |mods| ==> ResolvedAs(inv.packages, mods[j], imports[j])
  {
    var text := Rewritten(inv).text;
    SynthesisImports(inv);
    ModulesAreQualifiers(text, UsesArgs(text), inv.jsonOut || inv.jsonFlat, BodyOf(inv));
    ResolveQualifiers(inv.packages, ModuleList(inv));
  }

  lemma SynthesisImports(inv: Invocation)
    requires Synthesis(inv).Success?
    ensures Synthesis(inv).value.imports == ResolveAll(inv.packages, ModuleList(inv))
  {
  }

  /**
   * fmt is always imported unless a statement rebinds it, log exactly when a guard went in
   * or the text names it, os exactly when the text names it or uses args, json and bytes
   * for JSON output; and no name a statement binds is imported, since it is a variable.
   */
  lemma ModulesFlags(final: string, usesArgs: bool, json: bool, body: Body)
    ensures var mods := Modules(final, usesArgs, json, body);
            var rs := body.receivers;
            && ("fmt." in mods <==> "fmt." !in rs)
            && ("log." in mods <==> ("log." in Qualifiers(final) || body.autoLog) && "log." !in rs)
            && ("os." in mods <==> ("os." in Qualifiers(final) || usesArgs) && "os." !in rs)
            && (json && "json." !in rs ==> "json." in mods)
            && (json && "bytes." !in rs ==> "bytes." in mods)
            && (forall x :: x in rs ==> x !in mods)
  {
    ModulesSpec(final, usesArgs, json, body);
  }
}
