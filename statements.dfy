/**
 * The statements before the expression (grun.go:158-181). Each one is trimmed and
 * searched for the pattern `([a-z]\w*)(,([a-z_]\w*))?\s*:=`. A match makes group 1 a
 * receiver (a variable, which must not be taken for a package). When group 3 starts
 * with "e", an error guard is inserted after the statement.
 */
module Statements {
  import opened Wrappers
  import opened GoStrings

  // ---------------------------------------------------------------------------
  // The pattern, as a language: what a match at p is made of
  // ---------------------------------------------------------------------------

  datatype Group = Group(start: nat, end: nat)

  /**
   * One way the pattern matches at p. Group 1 is s[p..nameEnd]. When group 2 takes part,
   * group 3 is s[second.start..second.end]. The `:=` sits at op.
   */
  datatype Parse = Parse(nameEnd: nat, second: Option<Group>, op: nat)

  /** Where `\s*:=` starts: after group 3 when group 2 took part, else after group 1. */
  function SpacesFrom(r: Parse): nat {
    if r.second.Some? then r.second.value.end else r.nameEnd
  }

  /** The groups of r lie inside s. */
  predicate InBounds(s: string, p: nat, r: Parse) {
    p < r.nameEnd <= |s| && (r.second.Some? ==> r.second.value.start <= r.second.value.end <= |s|)
  }

  ghost predicate IsParse(s: string, p: nat, r: Parse) {
    && InBounds(s, p, r) && IsLower(s[p]) && AllWord(s, p + 1, r.nameEnd)
    && (r.second.Some? ==>
          var g := r.second.value;
          && r.nameEnd < |s| && s[r.nameEnd] == ',' && g.start == r.nameEnd + 1 && g.start < g.end
          && (IsLower(s[g.start]) || s[g.start] == '_') && AllWord(s, g.start + 1, g.end))
    && SpacesFrom(r) <= r.op && r.op + 2 <= |s| && AllSpace(s, SpacesFrom(r), r.op)
    && s[r.op] == ':' && s[r.op + 1] == '='
  }

  /** matches[1] and matches[3] of FindStringSubmatch: group 3 is "" when group 2 did not take part. */
  datatype Submatch = Submatch(name: string, second: string)

  function GroupsOf(s: string, p: nat, r: Parse): Submatch
    requires InBounds(s, p, r)
  {
    Submatch(s[p..r.nameEnd], if r.second.Some? then s[r.second.value.start..r.second.value.end] else "")
  }

  // ---------------------------------------------------------------------------
  // The scanner
  // ---------------------------------------------------------------------------

  /** The match at p without group 2, group 1 ending at e: `\s*:=` must follow. */
  function PlainAt(s: string, p: nat, e: nat): (r: Option<Parse>)
    requires p < e <= |s|
    ensures r.Some? ==> InBounds(s, p, r.value)
  {
    var op := SpaceEnd(s, e);
    if op + 2 <= |s| && s[op] == ':' && s[op + 1] == '=' then Some(Parse(e, None, op)) else None
  }

  /**
   * How the pattern matches at p, as Go's backtracking finds it: `[a-z]\w*` takes the whole
   * run of word characters; then `,([a-z_]\w*)` is tried first, and without it `\s*:=`
   * must follow group 1.
   */
  function ParseAt(s: string, p: nat): (r: Option<Parse>)
    requires p <= |s|
    ensures r.Some? ==> InBounds(s, p, r.value)
  {
    if p < |s| && IsLower(s[p]) then
      var e := WordEnd(s, p + 1);
      if e + 1 < |s| && s[e] == ',' && (IsLower(s[e + 1]) || s[e + 1] == '_') then
        var g := Group(e + 1, WordEnd(s, e + 2));
        var op := SpaceEnd(s, g.end);
        if op + 2 <= |s| && s[op] == ':' && s[op + 1] == '=' then Some(Parse(e, Some(g), op))
        else PlainAt(s, p, e)
      else PlainAt(s, p, e)
    else None
  }

  /** The match at p, with the submatches Go reports for it. */
  function MatchAt(s: string, p: nat): Option<Submatch>
    requires p <= |s|
  {
    match ParseAt(s, p)
    case None => None
    case Some(r) => Some(GroupsOf(s, p, r))
  }

  lemma {:induction false} ParseNameEnd(s: string, p: nat, r: Parse)
    requires IsParse(s, p, r)
    ensures r.nameEnd == WordEnd(s, p + 1)
  {
    assert !IsWordChar(s[r.nameEnd]) by {
      if r.second.None? && SpacesFrom(r) == r.op {
        assert s[r.op] == ':';
      }
    }
    WordEndIs(s, p + 1, r.nameEnd);
  }

  lemma ParseOp(s: string, p: nat, r: Parse)
    requires IsParse(s, p, r)
    ensures r.op == SpaceEnd(s, SpacesFrom(r))
  {
    SpaceEndIs(s, SpacesFrom(r), r.op);
  }

  lemma ParseSecondEnd(s: string, p: nat, r: Parse)
    requires IsParse(s, p, r) && r.second.Some?
    ensures r.second.value.end == WordEnd(s, r.second.value.start + 1)
  {
    var g := r.second.value;
    assert g.end < |s| && !IsWordChar(s[g.end]) by {
      if g.end == r.op {
        assert s[r.op] == ':';
      } else {
        assert IsRegexSpace(s[g.end]);
      }
    }
    WordEndIs(s, g.start + 1, g.end);
  }

  lemma NoSecondMeansOp(s: string, p: nat, r: Parse)
    requires IsParse(s, p, r) && r.second.None?
    ensures s[r.nameEnd] == ':' || IsRegexSpace(s[r.nameEnd])
  {
    if r.nameEnd == r.op {
      assert s[r.op] == ':';
    }
  }

  /** The pattern matches at most one way at a position. */
  lemma ParseUnique(s: string, p: nat, r1: Parse, r2: Parse)
    requires IsParse(s, p, r1) && IsParse(s, p, r2)
    ensures r1 == r2
  {
    ParseNameEnd(s, p, r1);
    ParseNameEnd(s, p, r2);
    if r1.second.Some? && r2.second.None? {
      NoSecondMeansOp(s, p, r2);
      assert false;
    } else if r1.second.None? && r2.second.Some? {
      NoSecondMeansOp(s, p, r1);
      assert false;
    }
    if r1.second.Some? {
      ParseSecondEnd(s, p, r1);
      ParseSecondEnd(s, p, r2);
    }
    ParseOp(s, p, r1);
    ParseOp(s, p, r2);
  }

  /** What the scanner finds at p is a way the pattern matches there. */
  lemma ParseAtSound(s: string, p: nat)
    requires p <= |s| && ParseAt(s, p).Some?
    ensures IsParse(s, p, ParseAt(s, p).value)
  {
  }

  /** Every way the pattern matches at p is what the scanner finds there. */
  lemma ParseAtComplete(s: string, p: nat, r: Parse)
    requires IsParse(s, p, r)
    ensures ParseAt(s, p) == Some(r)
  {
    ParseNameEnd(s, p, r);
    ParseOp(s, p, r);
    if r.second.Some? {
      ParseSecondEnd(s, p, r);
    } else {
      NoSecondMeansOp(s, p, r);
    }
  }

  /** Every way the pattern matches at p is found at p, with its own submatches. */
  lemma MatchAtComplete(s: string, p: nat, r: Parse)
    requires IsParse(s, p, r)
    ensures MatchAt(s, p) == Some(GroupsOf(s, p, r))
  {
    ParseAtComplete(s, p, r);
  }

  /** What the scanner reports at p comes from a match of the pattern at p. */
  lemma MatchAtSound(s: string, p: nat)
    requires p <= |s| && MatchAt(s, p).Some?
    ensures exists r :: IsParse(s, p, r) && MatchAt(s, p) == Some(GroupsOf(s, p, r))
  {
    ParseAtSound(s, p);
    var r := ParseAt(s, p).value;
    assert IsParse(s, p, r) && MatchAt(s, p) == Some(GroupsOf(s, p, r));
  }

  // ---------------------------------------------------------------------------
  // FindStringSubmatch: the leftmost match
  // ---------------------------------------------------------------------------

  datatype Found = Found(at: nat, groups: Submatch)

  function FindFrom(s: string, p: nat): (r: Option<Found>)
    requires p <= |s|
    ensures r.Some? ==> p <= r.value.at <= |s| && MatchAt(s, r.value.at) == Some(r.value.groups)
    decreases |s| - p
  {
    if p == |s| then None
    else if MatchAt(s, p).Some? then Some(Found(p, MatchAt(s, p).value))
    else FindFrom(s, p + 1)
  }

  /** FindStringSubmatch with `([a-z]\w*)(,([a-z_]\w*))?\s*:=`. */
  function FindStringSubmatch(l: string): Option<Found> {
    FindFrom(l, 0)
  }

  /** The match found is the leftmost one; no match found means none anywhere. */
  lemma {:induction false} FindFromLeftmost(s: string, p: nat)
    requires p <= |s|
    ensures FindFrom(s, p).Some? ==> forall q :: p <= q < FindFrom(s, p).value.at ==> MatchAt(s, q).None?
    ensures FindFrom(s, p).None? ==> forall q :: p <= q <= |s| ==> MatchAt(s, q).None?
    decreases |s| - p
  {
    if p < |s| && MatchAt(s, p).None? {
      FindFromLeftmost(s, p + 1);
    }
  }

  /** A match at q with none between p and q is what the search from p finds. */
  lemma {:induction false} FindFromIs(s: string, p: nat, q: nat)
    requires p <= q <= |s| && MatchAt(s, q).Some?
    requires forall k :: p <= k < q ==> MatchAt(s, k).None?
    ensures FindFrom(s, p) == Some(Found(q, MatchAt(s, q).value))
    decreases q - p
  {
    if p < q {
      FindFromIs(s, p + 1, q);
    }
  }

  // ---------------------------------------------------------------------------
  // One statement, and the whole list
  // ---------------------------------------------------------------------------

  /** fmt.Sprintf("if %s != nil { log.Fatal(%s) }", err, err). */
  function Guard(err: string): string {
    "if " + err + " != nil { log.Fatal(" + err + ") }"
  }

  /** strings.HasPrefix(err, "e"). */
  predicate LooksLikeError(err: string) {
    |err| > 0 && err[0] == 'e'
  }

  /** What the loop adds for a run of statements: lines, receivers, and whether a guard went in. */
  datatype Outcome = Outcome(lines: seq<string>, receivers: seq<string>, autoLog: bool)

  function Combine(a: Outcome, b: Outcome): Outcome {
    Outcome(a.lines + b.lines, a.receivers + b.receivers, a.autoLog || b.autoLog)
  }

  /** The body of the loop at grun.go:166-180 for one raw statement. */
  function ProcessStatement(raw: string): Outcome {
    var l := TrimSpace(raw);
    OutcomeOf(l, FindStringSubmatch(l))
  }

  /** What the loop body adds for the trimmed statement l, given what the search found in it. */
  function OutcomeOf(l: string, found: Option<Found>): Outcome {
    match found
    case None => Outcome([l], [], false)
    case Some(f) =>
      var err := f.groups.second;
      if LooksLikeError(err) then Outcome([l, Guard(err)], [f.groups.name + "."], true)
      else Outcome([l], [f.groups.name + "."], false)
  }

  /** The outcome of each statement, in order. */
  function Each(f: string -> Outcome, extra: seq<string>): (outs: seq<Outcome>)
    ensures |outs| == |extra|
    decreases |extra|
  {
    if extra == [] then [] else Each(f, extra[..|extra| - 1]) + [f(extra[|extra| - 1])]
  }

  /** The outcomes of a run of statements, accumulated one after the other. */
  function CombineAll(outs: seq<Outcome>): Outcome
    decreases |outs|
  {
    if outs == [] then Outcome([], [], false)
    else Combine(CombineAll(outs[..|outs| - 1]), outs[|outs| - 1])
  }

  /** The loop at grun.go:166-180 over the statements, one after the other. */
  function ProcessAll(extra: seq<string>): Outcome {
    CombineAll(Each(ProcessStatement, extra))
  }

  // ---------------------------------------------------------------------------
  // What the loop guarantees
  // ---------------------------------------------------------------------------

  /** The k-th outcome is that of the k-th statement. */
  lemma {:induction false} EachAt(f: string -> Outcome, extra: seq<string>, j: nat)
    requires j < |extra|
    ensures Each(f, extra)[j] == f(extra[j])
    decreases |extra|
  {
    if j < |extra| - 1 {
      var init := extra[..|extra| - 1];
      EachAt(f, init, j);
      assert init[j] == extra[j];
    }
  }

  /** The last statement's outcome goes after those of the statements before it. */
  lemma ProcessAllSnoc(extra: seq<string>, raw: string)
    ensures ProcessAll(extra + [raw]) == Combine(ProcessAll(extra), ProcessStatement(raw))
  {
    var all := extra + [raw];
    assert all[..|all| - 1] == extra;
    var outs := Each(ProcessStatement, all);
    assert outs[..|outs| - 1] == Each(ProcessStatement, extra);
  }

  /** One more statement of a list, read as a prefix of it. */
  lemma ProcessAllStep(extra: seq<string>, i: nat)
    requires i < |extra|
    ensures ProcessAll(extra[..i + 1]) == Combine(ProcessAll(extra[..i]), ProcessStatement(extra[i]))
  {
    assert extra[..i + 1] == extra[..i] + [extra[i]];
    ProcessAllSnoc(extra[..i], extra[i]);
  }

  /**
   * A statement whose trimmed form has its leftmost match at p is kept, trimmed; group 1 of
   * that match plus a dot is its one receiver; and a guard on group 3 follows the statement,
   * with auto-logging on, exactly when group 3 starts with "e".
   */
  lemma ProcessStatementSpec(raw: string, p: nat, r: Parse)
    requires IsParse(TrimSpace(raw), p, r)
    requires forall q :: 0 <= q < p ==> MatchAt(TrimSpace(raw), q).None?
    ensures var l := TrimSpace(raw);
            var g := GroupsOf(l, p, r);
            var o := ProcessStatement(raw);
            && o.receivers == [g.name + "."]
            && (o.autoLog <==> LooksLikeError(g.second))
            && o.lines == [l] + (if LooksLikeError(g.second) then [Guard(g.second)] else [])
  {
    var l := TrimSpace(raw);
    var g := GroupsOf(l, p, r);
    MatchAtComplete(l, p, r);
    FindFromIs(l, 0, p);
    assert FindStringSubmatch(l) == Some(Found(p, g));
  }

  /** A statement the pattern does not match is kept, trimmed, with nothing added. */
  lemma ProcessStatementNoMatch(raw: string)
    requires forall p, r :: !IsParse(TrimSpace(raw), p, r)
    ensures ProcessStatement(raw) == Outcome([TrimSpace(raw)], [], false)
  {
    var l := TrimSpace(raw);
    if FindStringSubmatch(l).Some? {
      MatchAtSound(l, FindStringSubmatch(l).value.at);
      assert false;
    }
  }

  /** Group 1 of a match is a run of word characters starting with a lower-case letter. */
  lemma MatchAtName(s: string, p: nat)
    requires p <= |s| && MatchAt(s, p).Some?
    ensures var x := MatchAt(s, p).value.name;
            |x| >= 1 && IsLower(x[0]) && forall j :: 0 <= j < |x| ==> IsWordChar(x[j])
  {
  }

  /** A Go identifier that starts with a lower-case letter, followed by a dot. */
  ghost predicate IsReceiver(x: string) {
    |x| >= 2 && IsLower(x[0]) && x[|x| - 1] == '.' && forall j :: 0 <= j < |x| - 1 ==> IsWordChar(x[j])
  }

  lemma ReceiverOf(l: string, found: Option<Found>)
    requires found.Some? ==> found.value.at <= |l| && MatchAt(l, found.value.at) == Some(found.value.groups)
    ensures |OutcomeOf(l, found).receivers| <= 1
    ensures forall x :: x in OutcomeOf(l, found).receivers ==> IsReceiver(x)
  {
    if found.Some? {
      MatchAtName(l, found.value.at);
      var x := found.value.groups.name + ".";
      assert forall j :: 0 <= j < |x| - 1 ==> x[j] == found.value.groups.name[j];
      assert OutcomeOf(l, found).receivers == [x];
    }
  }

  /** Every receiver is a Go identifier that starts with a lower-case letter, plus a dot. */
  lemma ReceiverShape(raw: string)
    ensures |ProcessStatement(raw).receivers| <= 1
    ensures forall x :: x in ProcessStatement(raw).receivers ==> IsReceiver(x)
  {
    var l := TrimSpace(raw);
    ReceiverOf(l, FindStringSubmatch(l));
  }

  /** A statement gives its own line and, when it gets a guard, one more. */
  lemma StatementLines(raw: string)
    ensures var o := ProcessStatement(raw);
            o.lines != [] && o.lines[0] == TrimSpace(raw) && (|o.lines| == 1 || |o.lines| == 2)
            && (|o.lines| == 2 <==> o.autoLog)
  {
  }

  lemma CombineAssociative(a: Outcome, b: Outcome, c: Outcome)
    ensures Combine(Combine(a, b), c) == Combine(a, Combine(b, c))
  {
    assert (a.lines + b.lines) + c.lines == a.lines + (b.lines + c.lines);
    assert (a.receivers + b.receivers) + c.receivers == a.receivers + (b.receivers + c.receivers);
  }

  /** The outcomes of a concatenation are accumulated part by part. */
  lemma {:induction false} CombineAllAppend(a: seq<Outcome>, b: seq<Outcome>)
    ensures CombineAll(a + b) == Combine(CombineAll(a), CombineAll(b))
    decreases |b|
  {
    if b == [] {
      assert a + b == a;
      assert CombineAll(a).lines + [] == CombineAll(a).lines;
      assert CombineAll(a).receivers + [] == CombineAll(a).receivers;
    } else {
      var b' := b[..|b| - 1];
      assert (a + b)[..|a + b| - 1] == a + b';
      assert (a + b)[|a + b| - 1] == b[|b| - 1];
      CombineAllAppend(a, b');
      CombineAssociative(CombineAll(a), CombineAll(b'), b[|b| - 1]);
    }
  }

  lemma {:induction false} CombineAllAutoLog(outs: seq<Outcome>)
    ensures CombineAll(outs).autoLog <==> exists j :: 0 <= j < |outs| && outs[j].autoLog
    decreases |outs|
  {
    if outs != [] {
      var init := outs[..|outs| - 1];
      CombineAllAutoLog(init);
      assert forall j :: 0 <= j < |init| ==> init[j] == outs[j];
    }
  }

  lemma {:induction false} CombineAllReceivers(outs: seq<Outcome>, x: string)
    ensures x in CombineAll(outs).receivers <==> exists j :: 0 <= j < |outs| && x in outs[j].receivers
    decreases |outs|
  {
    if outs != [] {
      var init := outs[..|outs| - 1];
      CombineAllReceivers(init, x);
      assert forall j :: 0 <= j < |init| ==> init[j] == outs[j];
    }
  }

  lemma {:induction false} CombineAllCount(outs: seq<Outcome>)
    requires forall j :: 0 <= j < |outs| ==> (|outs[j].lines| == 1 || |outs[j].lines| == 2) && (|outs[j].lines| == 2 <==> outs[j].autoLog)
    ensures |outs| <= |CombineAll(outs).lines| <= 2 * |outs|
    ensures |CombineAll(outs).lines| == |outs| <==> !CombineAll(outs).autoLog
    decreases |outs|
  {
    if outs != [] {
      var init := outs[..|outs| - 1];
      assert forall j :: 0 <= j < |init| ==> init[j] == outs[j];
      CombineAllCount(init);
    }
  }

  /** The statements of a concatenation are processed part by part. */
  lemma {:induction false} EachAppend(f: string -> Outcome, a: seq<string>, b: seq<string>)
    ensures Each(f, a + b) == Each(f, a) + Each(f, b)
    decreases |b|
  {
    if b == [] {
      assert a + b == a;
    } else {
      var b' := b[..|b| - 1];
      assert (a + b)[..|a + b| - 1] == a + b';
      assert (a + b)[|a + b| - 1] == b[|b| - 1];
      EachAppend(f, a, b');
    }
  }

  lemma ProcessAllAppend(a: seq<string>, b: seq<string>)
    ensures ProcessAll(a + b) == Combine(ProcessAll(a), ProcessAll(b))
  {
    EachAppend(ProcessStatement, a, b);
    CombineAllAppend(Each(ProcessStatement, a), Each(ProcessStatement, b));
  }

  /** A guard goes in (and log must be imported) exactly when some statement gets one. */
  lemma ProcessAllAutoLog(extra: seq<string>)
    ensures ProcessAll(extra).autoLog <==> exists j :: 0 <= j < |extra| && ProcessStatement(extra[j]).autoLog
  {
    CombineAllAutoLog(Each(ProcessStatement, extra));
    forall j | 0 <= j < |extra| {
      EachAt(ProcessStatement, extra, j);
    }
  }

  /** The receivers are exactly those of the statements, statement by statement. */
  lemma ProcessAllReceivers(extra: seq<string>, x: string)
    ensures x in ProcessAll(extra).receivers <==> exists j :: 0 <= j < |extra| && x in ProcessStatement(extra[j]).receivers
  {
    CombineAllReceivers(Each(ProcessStatement, extra), x);
    forall j | 0 <= j < |extra| {
      EachAt(ProcessStatement, extra, j);
    }
  }

  /** Each statement gives its own line and at most one guard after it. */
  lemma ProcessAllCount(extra: seq<string>)
    ensures |extra| <= |ProcessAll(extra).lines| <= 2 * |extra|
    ensures |ProcessAll(extra).lines| == |extra| <==> !ProcessAll(extra).autoLog
  {
    var outs := Each(ProcessStatement, extra);
    forall j | 0 <= j < |outs|
      ensures (|outs[j].lines| == 1 || |outs[j].lines| == 2) && (|outs[j].lines| == 2 <==> outs[j].autoLog)
    {
      EachAt(ProcessStatement, extra, j);
      StatementLines(extra[j]);
    }
    CombineAllCount(outs);
  }

  // ---------------------------------------------------------------------------
  // The shapes of statement grun meets
  // ---------------------------------------------------------------------------

  /** A run of word characters that starts with a lower-case letter: what group 1 takes. */
  ghost predicate IsName(n: string) {
    |n| >= 1 && IsLower(n[0]) && forall j :: 0 <= j < |n| ==> IsWordChar(n[j])
  }

  ghost predicate AllSpaces(ws: string) {
    forall j :: 0 <= j < |ws| ==> IsRegexSpace(ws[j])
  }

  /** What the loop body adds for a statement whose trimmed form has the leftmost match f. */
  lemma ProcessStatementFound(raw: string, f: Found)
    requires FindStringSubmatch(TrimSpace(raw)) == Some(f)
    ensures ProcessStatement(raw) == OutcomeOf(TrimSpace(raw), Some(f))
  {
  }

  /** `v,err<spaces>:=...` matches at 0 with group 1 v and group 3 err. */
  lemma TwoNamesFound(l: string, v: string, err: string, ws: string, rest: string)
    requires IsName(v) && IsName(err) && AllSpaces(ws)
    requires l == v + "," + err + ws + ":=" + rest
    ensures FindStringSubmatch(l) == Some(Found(0, Submatch(v, err)))
  {
    var a := |v|;
    var b := a + 1 + |err|;
    var op := b + |ws|;
    assert l[a] == ',' && l[op] == ':' && l[op + 1] == '=';
    assert forall j :: 0 <= j < a ==> l[j] == v[j];
    assert forall j :: a + 1 <= j < b ==> l[j] == err[j - a - 1];
    assert forall j :: b <= j < op ==> l[j] == ws[j - b];
    var r := Parse(a, Some(Group(a + 1, b)), op);
    assert IsParse(l, 0, r);
    assert l[0..a] == v && l[a + 1..b] == err;
    MatchAtComplete(l, 0, r);
    FindFromIs(l, 0, 0);
  }

  /**
   * `v,err := f()`: group 1 is v and group 3 is err, so v becomes a receiver and, since
   * err starts with "e", a guard follows the statement.
   */
  lemma TwoNamesGuarded(raw: string, v: string, err: string, ws: string, rest: string)
    requires IsName(v) && IsName(err) && err[0] == 'e' && AllSpaces(ws)
    requires TrimSpace(raw) == v + "," + err + ws + ":=" + rest
    ensures ProcessStatement(raw) == Outcome([TrimSpace(raw), Guard(err)], [v + "."], true)
  {
    TwoNamesFound(TrimSpace(raw), v, err, ws, rest);
    ProcessStatementFound(raw, Found(0, Submatch(v, err)));
  }

  lemma NoMatchBefore(l: string, x: string, q: nat)
    requires IsName(x) && |x| + 2 <= |l| && l[..|x|] == x && l[|x|] == ',' && l[|x| + 1] == ' '
    requires q < |x| + 2
    ensures MatchAt(l, q).None?
  {
    var a := |x|;
    if q < a && IsLower(l[q]) {
      assert forall j :: q + 1 <= j < a ==> l[j] == x[j];
      WordEndIs(l, q + 1, a);
      assert SpaceEnd(l, a) == a;
    }
  }

  /** `x, err<spaces>:=...`: the leftmost match is at err, with no group 3. */
  lemma SpacedCommaFound(l: string, x: string, err: string, ws: string, rest: string)
    requires IsName(x) && IsName(err) && AllSpaces(ws)
    requires l == x + ", " + err + ws + ":=" + rest
    ensures FindStringSubmatch(l) == Some(Found(|x| + 2, Submatch(err, "")))
  {
    var a := |x|;
    var p := a + 2;
    var b := p + |err|;
    var op := b + |ws|;
    assert l[..a] == x && l[a] == ',' && l[a + 1] == ' ' && l[op] == ':' && l[op + 1] == '=';
    assert forall j :: p <= j < b ==> l[j] == err[j - p];
    assert forall j :: b <= j < op ==> l[j] == ws[j - b];
    forall q | 0 <= q < p
      ensures MatchAt(l, q).None?
    {
      NoMatchBefore(l, x, q);
    }
    var r := Parse(b, None, op);
    assert IsParse(l, p, r);
    assert l[p..b] == err;
    MatchAtComplete(l, p, r);
    FindFromIs(l, 0, p);
  }

  /**
   * `x, err := f()`: the space after the comma stops group 2, so the leftmost match is
   * `err :=` on its own. err becomes the receiver and no guard is inserted.
   */
  lemma SpacedCommaUnguarded(raw: string, x: string, err: string, ws: string, rest: string)
    requires IsName(x) && IsName(err) && AllSpaces(ws)
    requires TrimSpace(raw) == x + ", " + err + ws + ":=" + rest
    ensures ProcessStatement(raw) == Outcome([TrimSpace(raw)], [err + "."], false)
  {
    SpacedCommaFound(TrimSpace(raw), x, err, ws, rest);
    ProcessStatementFound(raw, Found(|x| + 2, Submatch(err, "")));
  }

  /** A non-empty run of decimal digits, such as strconv.Itoa writes. */
  ghost predicate IsDigits(d: string) {
    |d| >= 1 && forall j :: 0 <= j < |d| ==> IsDigit(d[j])
  }

  /** `_s<digits>:=<literal>` is its own trimmed form. */
  lemma BindingLineTrimmed(l: string, d: string, lit: string)
    requires |lit| >= 1 && lit[|lit| - 1] == '"'
    requires l == "_s" + d + ":=" + lit
    ensures TrimSpace(l) == l
  {
    assert l[0] == '_' && l[|l| - 1] == '"';
    TrimFuncKeeps(l, IsGoSpace);
  }

  /** The leftmost match in `_s<digits>:=<literal>` is at 1, with no group 3. */
  lemma BindingLineFound(l: string, d: string, lit: string)
    requires IsDigits(d)
    requires l == "_s" + d + ":=" + lit
    ensures FindStringSubmatch(l) == Some(Found(1, Submatch("s" + d, "")))
  {
    var e := 2 + |d|;
    assert l[0] == '_' && l[1] == 's' && l[e] == ':' && l[e + 1] == '=';
    assert forall j :: 2 <= j < e ==> l[j] == d[j - 2];
    var r := Parse(e, None, e);
    assert IsParse(l, 1, r);
    assert l[1..e] == "s" + d;
    MatchAtComplete(l, 1, r);
    assert MatchAt(l, 0).None?;
    FindFromIs(l, 0, 1);
  }

  /**
   * A binding line `_sK:=<literal>` left by the literal hoisting: the leftmost match starts
   * after the underscore, so sK becomes a receiver and no guard is inserted.
   */
  lemma BindingLineOutcome(d: string, lit: string)
    requires IsDigits(d) && |lit| >= 2 && lit[0] == '"' && lit[|lit| - 1] == '"'
    ensures var l := "_s" + d + ":=" + lit;
            ProcessStatement(l) == Outcome([l], ["s" + d + "."], false)
  {
    var l := "_s" + d + ":=" + lit;
    BindingLineTrimmed(l, d, lit);
    BindingLineFound(l, d, lit);
    ProcessStatementFound(l, Found(1, Submatch("s" + d, "")));
  }
}
