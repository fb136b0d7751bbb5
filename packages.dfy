/**
 * The text handling of Packages in packages.go: indexing `go list` output by last path
 * segment, writing the catalog as `k v` lines, and reading those lines back. The cache
 * folder, the existence test, the file read and write and the run of `go list` are I/O and
 * are not part of this model: each operation here starts from the text and ends at the map.
 */
module Packages {
  import opened Wrappers
  import opened GoStrings
  import Util

  datatype Entry = Entry(key: string, value: string)

  // ---------------------------------------------------------------------------
  // Indexing lines into a map (both branches of Packages have this shape)
  // ---------------------------------------------------------------------------

  /** The map a loop `for line { if e := entry(line); ok { packages[e.key] = e.value } }` builds. */
  function IndexLines(lines: seq<string>, entry: string -> Option<Entry>): map<string, string>
    decreases |lines|
  {
    if lines == [] then map[]
    else
      var m := IndexLines(lines[..|lines| - 1], entry);
      match entry(lines[|lines| - 1])
      case None => m
      case Some(e) => m[e.key := e.value]
  }

  predicate HasKey(entry: string -> Option<Entry>, line: string, k: string) {
    entry(line).Some? && entry(line).value.key == k
  }

  /** Line i gives an entry for k and no later line does. */
  ghost predicate LastEntryFor(lines: seq<string>, entry: string -> Option<Entry>, k: string, i: int) {
    && 0 <= i < |lines|
    && HasKey(entry, lines[i], k)
    && forall j :: i < j < |lines| ==> !HasKey(entry, lines[j], k)
  }

  /** Keys come only from the lines, and each key holds the value of its last line: later lines overwrite. */
  lemma {:induction false} IndexLinesSpec(lines: seq<string>, entry: string -> Option<Entry>, k: string)
    ensures k in IndexLines(lines, entry) <==> exists i :: 0 <= i < |lines| && HasKey(entry, lines[i], k)
    ensures k in IndexLines(lines, entry) ==>
              exists i :: LastEntryFor(lines, entry, k, i) && IndexLines(lines, entry)[k] == entry(lines[i]).value.value
    decreases |lines|
  {
    if lines != [] {
      var n := |lines|;
      var p := lines[..n - 1];
      IndexLinesSpec(p, entry, k);
      assert forall i :: 0 <= i < n - 1 ==> p[i] == lines[i];
      if HasKey(entry, lines[n - 1], k) {
        assert LastEntryFor(lines, entry, k, n - 1);
      } else if k in IndexLines(lines, entry) {
        var i :| LastEntryFor(p, entry, k, i) && IndexLines(p, entry)[k] == entry(p[i]).value.value;
        assert LastEntryFor(lines, entry, k, i);
      }
    }
  }

  /** Indexing a concatenation: the second part's entries override the first part's. */
  lemma {:induction false} IndexLinesAppend(a: seq<string>, b: seq<string>, entry: string -> Option<Entry>)
    ensures IndexLines(a + b, entry) == IndexLines(a, entry) + IndexLines(b, entry)
    decreases |b|
  {
    if b == [] {
      assert a + b == a;
    } else {
      var n := |b|;
      assert (a + b)[..|a + b| - 1] == a + b[..n - 1];
      assert (a + b)[|a + b| - 1] == b[n - 1];
      IndexLinesAppend(a, b[..n - 1], entry);
      match entry(b[n - 1])
      case None =>
      case Some(e) =>
        assert IndexLines(a + b, entry) == (IndexLines(a, entry) + IndexLines(b[..n - 1], entry))[e.key := e.value];
        assert IndexLines(b, entry) == IndexLines(b[..n - 1], entry)[e.key := e.value];
    }
  }

  // ---------------------------------------------------------------------------
  // `go list` output (packages.go, the rebuild branch)
  // ---------------------------------------------------------------------------

  /** The entry one `go list` line contributes: its last path segment, mapped to the whole line. */
  function GoListEntry(line: string): Option<Entry> {
    var parts := Split(line, '/');
    if parts[0] == "golang.org" || parts[0] == "cmd" then None
    else if |parts| > 1 && "internal" !in parts then Some(Entry(parts[|parts| - 1], line))
    else None
  }

  /** The rebuild loop: skip reserved roots, keep lines with a '/' and no `internal` segment. */
  method IndexGoList(stdout: string) returns (packages: map<string, string>)
    ensures packages == IndexLines(Split(stdout, '\n'), GoListEntry)
  {
    packages := map[];
    var lines := Split(stdout, '\n');
    for i := 0 to |lines|
      invariant packages == IndexLines(lines[..i], GoListEntry)
    {
      var line := lines[i];
      assert lines[..i + 1][..i] == lines[..i];
      var parts := Split(line, '/');
      if parts[0] == "golang.org" || parts[0] == "cmd" {
        continue;
      }
      var internal := Util.Contains(parts, "internal");
      if |parts| > 1 && !internal {
        packages := packages[parts[|parts| - 1] := line];
      }
    }
    assert lines[..|lines|] == lines;
  }

  /** A line whose first segment is golang.org or cmd, or that has no '/', adds nothing. */
  lemma GoListSkips(line: string)
    requires var parts := Split(line, '/'); parts[0] == "golang.org" || parts[0] == "cmd" || '/' !in line
    ensures GoListEntry(line) == None
  {
  }

  /** Every catalog entry is a kept input line, filed under its own last segment. */
  lemma GoListValues(stdout: string, k: string)
    requires k in IndexLines(Split(stdout, '\n'), GoListEntry)
    ensures var m := IndexLines(Split(stdout, '\n'), GoListEntry);
            var parts := Split(m[k], '/');
            && m[k] in Split(stdout, '\n')
            && parts[|parts| - 1] == k
            && parts[0] != "golang.org" && parts[0] != "cmd"
            && '/' in m[k] && "internal" !in parts
  {
    var lines := Split(stdout, '\n');
    IndexLinesSpec(lines, GoListEntry, k);
    var i :| LastEntryFor(lines, GoListEntry, k, i) && IndexLines(lines, GoListEntry)[k] == GoListEntry(lines[i]).value.value;
  }

  // ---------------------------------------------------------------------------
  // Writing the catalog (fmt.Fprintln(&sb, k, v) for each entry)
  // ---------------------------------------------------------------------------

  /** One cache line: Fprintln puts a space between its operands and a newline after them. */
  function EntryLine(k: string, v: string): string {
    k + " " + v + "\n"
  }

  /** The cache text for the entries of m in the given key order. */
  function Render(m: map<string, string>, order: seq<string>): string
    requires forall i :: 0 <= i < |order| ==> order[i] in m
    decreases |order|
  {
    if order == [] then "" else EntryLine(order[0], m[order[0]]) + Render(m, order[1..])
  }

  /** order lists every key of m exactly once. */
  ghost predicate Enumerates(order: seq<string>, m: map<string, string>) {
    Util.NoDups(order) && forall k :: k in order <==> k in m
  }

  lemma {:induction false} RenderSnoc(m: map<string, string>, order: seq<string>, k: string)
    requires forall i :: 0 <= i < |order| ==> order[i] in m
    requires k in m
    ensures Render(m, order + [k]) == Render(m, order) + EntryLine(k, m[k])
    decreases |order|
  {
    if order != [] {
      assert (order + [k])[1..] == order[1..] + [k];
      RenderSnoc(m, order[1..], k);
    }
  }

  /**
   * The serialisation loop. Go visits map entries in an unspecified order, so the key to
   * write next is chosen arbitrarily; the ghost `order` records the order used.
   */
  method Serialize(m: map<string, string>) returns (text: string, ghost order: seq<string>)
    ensures Enumerates(order, m)
    ensures text == Render(m, order)
  {
    var sb := "";
    var rest := m.Keys;
    order := [];
    while rest != {}
      invariant rest <= m.Keys
      invariant forall i :: 0 <= i < |order| ==> order[i] in m && order[i] !in rest
      invariant forall k :: k in m ==> k in rest || k in order
      invariant Util.NoDups(order)
      invariant sb == Render(m, order)
      decreases rest
    {
      var k :| k in rest;
      RenderSnoc(m, order, k);
      sb := sb + EntryLine(k, m[k]);
      order := order + [k];
      rest := rest - {k};
    }
    text := sb;
  }

  // ---------------------------------------------------------------------------
  // Reading the catalog back (packages.go, the cache branch)
  // ---------------------------------------------------------------------------

  /** A cache line with at least two space-separated parts maps parts[0] to parts[1]. */
  function CacheEntry(line: string): Option<Entry> {
    var parts := Split(line, ' ');
    if |parts| > 1 then Some(Entry(parts[0], parts[1])) else None
  }

  /** The cache-reading loop. */
  method ParseCache(res: string) returns (packages: map<string, string>)
    ensures packages == IndexLines(Split(res, '\n'), CacheEntry)
  {
    packages := map[];
    var lines := Split(res, '\n');
    for i := 0 to |lines|
      invariant packages == IndexLines(lines[..i], CacheEntry)
    {
      assert lines[..i + 1][..i] == lines[..i];
      var parts := Split(lines[i], ' ');
      if |parts| > 1 {
        packages := packages[parts[0] := parts[1]];
      }
    }
    assert lines[..|lines|] == lines;
  }

  /** A line without a space, the trailing empty line among them, is ignored; extra parts are dropped. */
  lemma CacheEntryShape(line: string)
    ensures ' ' !in line ==> CacheEntry(line) == None
    ensures ' ' in line ==> CacheEntry(line) == Some(Entry(Split(line, ' ')[0], Split(line, ' ')[1]))
  {
  }

  /** Keys and values that can be written without ambiguity. */
  ghost predicate Plain(m: map<string, string>) {
    forall k :: k in m ==> ' ' !in k && '\n' !in k && ' ' !in m[k] && '\n' !in m[k]
  }

  lemma CacheEntryOfLine(k: string, v: string)
    requires ' ' !in k && ' ' !in v
    ensures CacheEntry(k + " " + v) == Some(Entry(k, v))
  {
    SplitJoin([k, v], ' ');
    assert Join([k, v], ' ') == k + " " + v;
  }

  /** Writing one line per entry: the lines of Render(m, order) are exactly the `k v` pairs, then "". */
  lemma {:induction false} RenderLines(m: map<string, string>, order: seq<string>)
    requires forall i :: 0 <= i < |order| ==> order[i] in m
    requires Plain(m)
    ensures |Split(Render(m, order), '\n')| == |order| + 1
    ensures forall i :: 0 <= i < |order| ==> Split(Render(m, order), '\n')[i] == order[i] + " " + m[order[i]]
    ensures Split(Render(m, order), '\n')[|order|] == ""
    decreases |order|
  {
    if order != [] {
      var k := order[0];
      RenderLines(m, order[1..]);
      assert EntryLine(k, m[k]) + Render(m, order[1..]) == (k + " " + m[k]) + ['\n'] + Render(m, order[1..]);
      SplitAppend(k + " " + m[k], Render(m, order[1..]), '\n');
    }
  }

  /** Reading the first written line and then the rest. */
  lemma ParseRenderStep(m: map<string, string>, order: seq<string>)
    requires order != [] && forall i :: 0 <= i < |order| ==> order[i] in m
    requires Plain(m)
    ensures IndexLines(Split(Render(m, order), '\n'), CacheEntry)
         == map[order[0] := m[order[0]]] + IndexLines(Split(Render(m, order[1..]), '\n'), CacheEntry)
  {
    var k := order[0];
    var line := k + " " + m[k];
    var rest := Render(m, order[1..]);
    assert Render(m, order) == line + ['\n'] + rest;
    SplitAppend(line, rest, '\n');
    IndexLinesAppend([line], Split(rest, '\n'), CacheEntry);
    CacheEntryOfLine(k, m[k]);
    assert [line][..0] == [];
  }

  lemma MapOfKeysCons(m: map<string, string>, order: seq<string>)
    requires order != [] && forall i :: 0 <= i < |order| ==> order[i] in m
    ensures map[order[0] := m[order[0]]] + (map x | x in order[1..] :: m[x]) == map x | x in order :: m[x]
  {
    assert order == [order[0]] + order[1..];
  }

  lemma {:induction false} ParseRender(m: map<string, string>, order: seq<string>)
    requires forall i :: 0 <= i < |order| ==> order[i] in m
    requires Util.NoDups(order)
    requires Plain(m)
    ensures IndexLines(Split(Render(m, order), '\n'), CacheEntry) == map k | k in order :: m[k]
    decreases |order|
  {
    if order == [] {
      assert Split("", '\n') == [""];
      assert IndexLines([""], CacheEntry) == IndexLines([], CacheEntry);
    } else {
      assert Util.NoDups(order[1..]);
      ParseRender(m, order[1..]);
      ParseRenderStep(m, order);
      MapOfKeysCons(m, order);
    }
  }

  /** Reading back what Serialize writes recovers the catalog, whatever order the entries were written in. */
  lemma CacheRoundTrip(m: map<string, string>, order: seq<string>)
    requires Enumerates(order, m)
    requires Plain(m)
    ensures IndexLines(Split(Render(m, order), '\n'), CacheEntry) == m
  {
    ParseRender(m, order);
  }
}
