# grun, modelled in Dafny

grun runs a one-line Go expression, or a small file of Go lines, as a whole program.
It writes a `main` package around the expression. The core of grun turns the command
line into the record that fills the program template. This project models that core:

- **The source text.** `-e` gives the expression. `-f` gives a file, whose lines are
  kept unless they are `//` comment lines and are then joined with `;`. With neither
  flag the run stops with the usage message. `-J` implies `-j`.
- **Literal hoisting.** Every double-quoted literal, from left to right, is replaced by
  `_s1`, `_s2`, ... The binding line `_sK:=<literal>` is recorded for each one, so that
  the rewrites that follow never see inside a literal.
- **Shortcuts.** `R(` at a word boundary becomes `regexp.MustCompile(`. A capital letter
  followed by `.` at a word boundary becomes a package name: `S.` becomes `strings.`,
  `M.` becomes `math.`, `C.` becomes `strconv.`, and any other letter becomes `.`.
- **Statements.** When the text holds a `;`, the bindings and the `;`-separated pieces
  form one list. The last element, trimmed, is the expression. Every other element is a
  statement. Each statement is trimmed and matched against the assignment pattern
  `([a-z]\w*)(,([a-z_]\w*))?\s*:=`. The first name it binds becomes a receiver, a local
  variable that must not be imported. When the second name starts with `e`, a line
  `if <second> != nil { log.Fatal(<second>) }` is inserted after the statement, with the
  second name in both places.
- **Modules and imports.** The module list is built from these, in order:
  - every `\b[a-z]\w+\.` qualifier in the text;
  - `fmt.`;
  - `os.` when the text uses `args`;
  - `json.` and `bytes.` for JSON output;
  - `log.` when a guard was inserted.

  The list is de-duplicated in first-occurrence order and the receivers are removed.
  Each module then resolves to its catalog path, or to its bare name when the catalog
  does not know it.
- **The package catalog.** Go maps a package's last path segment to its import path.
  The catalog is built from `go list` output, with these rules:
  - lines under `golang.org` or `cmd` are skipped;
  - lines without a `/` are skipped;
  - lines with an `internal` segment are skipped;
  - a later line overwrites an earlier one.

  The catalog is written out as `name path` lines and read back from them.
- **Helpers.** `dedupStrings`, `contains`, `filter` and `removeStrings`.

The regular expressions become hand-written scanners with Go's regexp semantics:
leftmost-first and non-overlapping, with an ASCII `\w` and `\b`, and a `\s` of
`[\t\n\f\r ]`. Each scanner is proved against a declarative description of what a match
is. Each loop of the source becomes a `method` proved equal to a specification
function. The properties are proved as lemmas about those functions.

The modules are:
- `Wrappers`: Option and Result.
- `GoStrings`: `strings.Split`/`Join`/`TrimSpace`/`Trim`, `strconv.Itoa`, the
  character classes.
- `Util`: util.go.
- `Packages`: the pure parts of packages.go.
- `Literals`: literal hoisting.
- `Shortcuts`: `R(` and the capital-letter shortcuts.
- `Statements`: the assignment pattern and the statement loop.
- `Grun`: `main` from `-J` to the `Data` record.

Some of the behaviour below differs from what grun's documentation describes. The model
follows the code:
- **A space after the comma.** The pattern at grun.go:164 allows no space after the
  comma. So in `x, err := f()` the leftmost match starts at `err`. The receiver is `err.`,
  `x` is not a receiver, and no guard is inserted (`Statements.SpacedCommaUnguarded`).
  Written without the space, `x,err := f()` is guarded (`Statements.TwoNamesGuarded`).
- **The `e` prefix test.** grun.go:175 only tests that the second name starts with `e`,
  so `x,elapsed := f()` is guarded too.
- **No `;` in the text.** grun.go:154 takes the text as the expression, untrimmed; only
  the `;` branch at grun.go:161 trims (`Grun.ExpressionWithoutStatements`).
- **Hoisted literals.** With a `;`, grun.go:159 puts every binding line `_sK:=...` into
  the statement loop as well. It stays a line as it is and makes `sK.` a receiver
  (`Grun.RewriteBindingsProcessed`, `Statements.BindingLineOutcome`).
- **Short qualifiers.** The pattern at grun.go:183 needs at least two characters before
  the dot, so `x.` is never a module.

## Model

| member | source | states |
|---|---|---|
| Util.DedupStrings | util.go:26-37 | the loop's result is `Dedup` of the input: each string at its first occurrence |
| Util.DedupMembers | util.go:26-37 | a string is in the de-duplicated list exactly when it is in the input |
| Util.DedupNoDups | util.go:26-37 | the de-duplicated list has no repeated string |
| Util.DedupFirstOccurrenceOrder | util.go:30-35 | every kept string comes from the input, and kept strings are in the order of their first occurrences in the input |
| Util.DedupOfUnique | util.go:30-35 | a list without repeats is returned unchanged |
| Util.DedupIdempotent | util.go:26-37 | de-duplicating twice is de-duplicating once |
| Util.Contains | util.go:39-46 | returns true exactly when the needle is in the haystack |
| Util.Filter | grun.go:130-132 | every element of the result satisfies the predicate; an element is in the result exactly when it is in the input and satisfies it; the result is a subsequence of the input, and has no repeats when the input has none |
| Util.FilterCounts | grun.go:130-132 | every element that satisfies the predicate appears in the result exactly as often as in the input, and no other element appears |
| Util.FilterAppend | grun.go:130-132 | filtering a concatenation is filtering each part and concatenating, so the input's order is kept |
| Util.RemoveStrings | grun.go:195 | an element is in the result exactly when it is in the first list and not in the second; the result is a subsequence of the first list, and has no repeats when that list has none |
| Util.RemoveStringsCounts | grun.go:195 | an element not in the second list appears in the result exactly as often as in the first list, and an element of the second list does not appear |
| Packages.IndexLinesSpec | packages.go:17-32 | a name is in the built map exactly when some line yields an entry for it; its value is the one the last such line yields |
| Packages.IndexLinesAppend | packages.go:24-31 | indexing two runs of lines is indexing each and letting the later run win |
| Packages.IndexGoList | packages.go:23-32 | the loop over the `go list` lines builds exactly the index of those lines under the `go list` rule |
| Packages.GoListSkips | packages.go:25-29 | a line under `golang.org` or `cmd`, or without a `/`, contributes nothing |
| Packages.GoListValues | packages.go:25-30 | every catalog value is one of the `go list` lines; its last segment is its key; it is not under `golang.org` or `cmd`; it has a `/` and no `internal` segment |
| Packages.Serialize | packages.go:34-40 | the text is one `name path` line per entry, over an order that lists every key exactly once |
| Packages.RenderLines | packages.go:34-40 | split on newlines, the text gives line i as `key value` for the i-th key, then one empty piece |
| Packages.ParseCache | packages.go:50-55 | the loop over the cache lines builds exactly the index of those lines under the cache rule |
| Packages.CacheEntryShape | packages.go:51-54 | a line without a space contributes nothing; otherwise its first field maps to its second |
| Packages.ParseRender | packages.go:34-40 | reading back text written over a repeat-free order gives the map restricted to that order |
| Packages.CacheRoundTrip | packages.go:34-55 | reading back the written catalog gives the same map, when no key or path holds a space or newline |
| Literals.LiteralSpans | grun.go:140 | the literal matches are ordered, non-overlapping and inside the text |
| Literals.NextQuoteIsFirst | grun.go:140 | the scanner finds the first quote at or after a position, or says there is none |
| Literals.HoistLiterals | grun.go:138-145 | the loop yields the hoisted text and the binding lines that `Hoist` defines |
| Literals.HoistBindings | grun.go:140-145 | there is one binding per match; the k-th is `_sk:=` followed by the k-th literal, which is a quoted string without inner quotes |
| Literals.HoistRestores | grun.go:140-145 | the hoisted text is the input with the k-th literal replaced by `_sk`; putting the literals back gives the input |
| Literals.SpansGaps | grun.go:140 | no quote lies between two consecutive matches |
| Literals.SpansTail | grun.go:140 | at most one quote follows the last match |
| Literals.HoistWithoutLiterals | grun.go:138-145 | a text with at most one quote is unchanged and gives no bindings |
| Literals.HoistLeavesNoLiteral | grun.go:140-145 | the hoisted text holds no literal, so hoisting it again changes nothing |
| Literals.PlaceholdersDistinct | grun.go:142 | distinct counters give distinct placeholder names |
| Shortcuts.RewriteComplete | grun.go:147-152 | after a shortcut rewrite no shortcut is left at a word boundary |
| Shortcuts.RewriteKeeps | grun.go:147-152 | a text with no shortcut at a word boundary is left unchanged |
| Shortcuts.RewriteAppend | grun.go:147-152 | a rewrite distributes over a split that cuts no shortcut in two |
| Shortcuts.RegexShortcutHit | grun.go:147 | `R(` at a word boundary becomes `regexp.MustCompile(` and the text around it is rewritten on its own |
| Shortcuts.RegexShortcutAfterWord | grun.go:147 | `R(` right after a word character is kept as it is |
| Shortcuts.RegexShortcutComplete | grun.go:147 | the rewrite leaves no `R(` at a word boundary; it is the identity on text without one, and idempotent |
| Shortcuts.AliasTable | grun.go:100-104 | `S`, `M` and `C` expand to `strings.`, `math.` and `strconv.`; every other capital letter expands to `.` |
| Shortcuts.AliasExpansionTrims | grun.go:150-151 | the expansion is the table entry for the match with its dots trimmed, followed by a dot |
| Shortcuts.AliasHit | grun.go:149-152 | a capital letter and a dot at a word boundary expand, and the text around them is rewritten on its own |
| Shortcuts.AliasAfterWord | grun.go:149-152 | a capital letter and a dot right after a word character are kept |
| Shortcuts.AliasesComplete | grun.go:149-152 | no alias is left at a word boundary; the expansion is the identity on text without one, and idempotent |
| Statements.ParseAtSound | grun.go:164 | a match the scanner reports at a position fits the assignment pattern there |
| Statements.ParseAtComplete | grun.go:164 | any way the pattern fits at a position is the match the scanner reports |
| Statements.ParseUnique | grun.go:164 | the pattern fits at a position in at most one way: each name runs to the end of its word, so the groups are determined |
| Statements.FindFromLeftmost | grun.go:168 | the reported match is the leftmost: no position before it matches, and with no report no position matches |
| Statements.FindFromIs | grun.go:168 | the first matching position is the one reported |
| Statements.ProcessStatementSpec | grun.go:167-179 | when the trimmed statement's leftmost match has groups 1 and 3: the lines are the trimmed statement, followed by the guard on group 3 exactly when group 3 starts with `e`; the one receiver is group 1 plus a dot; auto-logging is on exactly when group 3 starts with `e` |
| Statements.ProcessStatementNoMatch | grun.go:167-170 | a statement the pattern does not fit gives only its trimmed line |
| Statements.ReceiverShape | grun.go:172 | a statement gives at most one receiver: a lower-case word followed by a dot |
| Statements.ProcessAllAppend | grun.go:166-180 | processing two runs of statements is processing each and concatenating the outcomes |
| Statements.ProcessAllAutoLog | grun.go:177 | auto-logging is on exactly when some statement had a guard inserted |
| Statements.ProcessAllReceivers | grun.go:172 | a name is a receiver exactly when some statement binds it |
| Statements.ProcessAllCount | grun.go:169-176 | there are between one and two lines per statement, and exactly one per statement when nothing was guarded |
| Statements.TwoNamesGuarded | grun.go:164-178 | `v,err := ...` gives its line, then the guard for `err`, with receiver `v.` |
| Statements.SpacedCommaUnguarded | grun.go:164-178 | `x, err := ...` binds receiver `err.`, and gets no guard |
| Statements.BindingLineOutcome | grun.go:164-178 | a binding line `_sK:=<literal>` stays a line as it is, makes `sK.` a receiver and gets no guard |
| Grun.CommentLineSpec | grun.go:129 | a line is a comment line exactly when it is blanks followed by `//` |
| Grun.FileExpressionLines | grun.go:129-133 | the kept lines are exactly the non-comment lines, each as often as the file holds it, in the file's order; when none holds a `;`, splitting the joined text on `;` gives them back |
| Grun.UsesArgsSpec | grun.go:153 | `args` is used exactly when it occurs as a whole word somewhere in the text |
| Grun.QualifierAtSpec | grun.go:183 | the qualifier scanner stops at a position exactly when a qualifier ends there |
| Grun.QualifiersSpec | grun.go:183 | a string is collected exactly when it occurs as a qualifier in the text: at a word boundary, a lower-case letter, one or more word characters, then a dot |
| Grun.QualifiersInOrder | grun.go:183 | the i-th collected qualifier stands in the text at its start position; each ends before the next one starts, so they are listed left to right; every qualifier occurrence in the text is one of them |
| Grun.QualifiersFromInOrder | grun.go:183 | the same for the scan from any position: the matches from there on, left to right, with none missed |
| Grun.RewriteLeavesNoLiteral | grun.go:137-152 | after hoisting and both shortcut rewrites the text holds at most one quote, so it holds no string literal and hoisting it again changes nothing |
| Shortcuts.RegexShortcutQuotes | grun.go:147 | the `R(` rewrite neither adds nor removes a quote |
| Shortcuts.AliasesQuotes | grun.go:149-152 | the alias rewrite neither adds nor removes a quote |
| Shortcuts.RewriteQuotes | grun.go:147-152 | a shortcut rewrite whose lead character and replacements are not quotes keeps the number of quotes |
| Grun.Synthesis | grun.go:115-216 | the run fails, with the usage message, exactly when neither an expression nor a file is given; otherwise `json` is set by `-j` or `-J`, `flat` by `-J`, and there is one import per module |
| Grun.Synthesize | grun.go:115-216 | `main` from `-J` to the `Data` record equals the specification `Synthesis` |
| Grun.CheckStatement | grun.go:167-179 | one pass of the loop body equals `ProcessStatement` |
| Grun.CheckStatements | grun.go:164-180 | the statement loop's lines, receivers and auto-log flag equal `ProcessAll` of the statements |
| Grun.SplitStatements | grun.go:154-181 | the split into expression and statements equals `SplitOff` |
| Grun.SplitOffAt | grun.go:159-180 | with `;` present, the expression and statement outcome equal `SplitAt` |
| Grun.CollectModules | grun.go:183-193 | the candidate list is the qualifiers, then `fmt.`, `os.`, `json.`/`bytes.` and `log.` as their flags say |
| Grun.ResolveImports | grun.go:200-208 | the import loop equals `ResolveAll` |
| Grun.ResolveAllSpec | grun.go:200-208 | import j is the resolution of module j |
| Grun.ResolveQualifier | grun.go:202-206 | a qualifier resolves to the catalog path of its name without the dot, or to that name |
| Grun.ImportsResolved | grun.go:200-208 | in a successful run, import j is the catalog path of module j's bare name, or that bare name |
| Grun.ExpressionWithoutStatements | grun.go:154-158 | without `;` the expression is the rewritten text as it is, the lines are the bindings, and there are no receivers and no guard |
| Grun.ExpressionAfterLastSemicolon | grun.go:158-180 | with `;` the expression is the trimmed last piece; the lines are the bindings followed by the processed statements; the receivers are `s1.`...`sn.` followed by the statements' receivers |
| Grun.RewriteBindingsProcessed | grun.go:140-180 | processed as statements, the binding lines stay unchanged, bind `s1.`...`sn.` and insert no guard |
| Grun.SplitAtPieces | grun.go:159-162 | the bindings' outcome comes first, then the outcome of every piece but the last |
| Grun.ModulesSpec | grun.go:183-195 | a module is listed exactly when it is a qualifier of the text or a flag adds it, and it is not a receiver; none is listed twice; the list is a subsequence of the de-duplicated candidates, which are the qualifiers in text order (`Grun.QualifiersInOrder`) followed by the flag modules |
| Grun.ModulesAreQualifiers | grun.go:183-195 | every module is a lower-case word followed by one dot |
| Grun.ModulesFlags | grun.go:184-195 | `fmt.` is listed unless bound as a variable; `log.` is listed exactly when named or a guard was inserted; `os.` exactly when named or `args` is used; `json.` and `bytes.` for JSON output; no receiver is ever listed |
| GoStrings.SplitJoin | grun.go:133 | joining pieces without the separator and splitting again gives the pieces back |
| GoStrings.TrimFuncSpec | grun.go:161 | trimming removes only cut characters from both ends, and leaves a text that starts and ends with uncut ones |
| GoStrings.ItoaRoundTrip | grun.go:142 | `strconv.Itoa` writes the decimal digits of the number, which read back as the number |

## Left out

- Running the program is not modelled: writing the template to a temporary directory, building it and executing it (grun.go outside lines 115-216, `Exec` and `copyFile` in util.go). They are I/O and process control.
- The `text/template` rendering of `Data` is not modelled: the model stops at the `Data` record that fills the template.
- Flag parsing is not modelled. The flag values are fields of `Invocation`.
- Reading the file is not modelled. Its contents are a parameter, and a failed read is not modelled.
- The `-r` rebuild branch of `main` is not modelled.
- The `-v` print of the module list is left out, because it is output only.
- The cache directory is not modelled, along with its existence test, `ReadFile` and `WriteFile`, the `go list` run and its error, and the "rebuilt package list" print. These are I/O. The catalog is a parameter of `Invocation`. `Packages` is modelled through its pure loops `IndexGoList`, `Serialize` and `ParseCache`.
- Packages.Serialize: Go's map iteration order is unspecified. The order is a ghost output that the contract only requires to list every key once. The `Fprintln` error path is left out, because writing to a `strings.Builder` does not fail.
- Packages.CacheRoundTrip: holds only for catalogs whose names and paths contain no space or newline. The cache format cannot represent other catalogs.
- The regular expressions are not modelled by a general engine. Each of the five patterns is a hand scanner with Go's leftmost-first semantics.
- `\w` and `\b` are ASCII only, as in Go's regexp package. `strings.TrimSpace` uses the Unicode white-space list of scalar values, written out. Text is a sequence of Unicode scalar values, not UTF-8 bytes, so invalid UTF-8 is not modelled.
- Grun.Synthesis: a `log.Fatal` is modelled as a `Failure` result carrying its message. The process exit is not modelled.
