# code_analysis, modelled in Dafny

`code_analysis` scans source texts line by line to find the functions they define. For each function it records three things:

- which `glob.` variables the function assigns;
- which `glob.` variables it references, reading or writing;
- which known functions it calls.

The `graph` command turns that trace into one table per function, with const, read-only and modify columns, plus one edge per call.

This project models three parts:

- **The rule engine** (`code_analysis/mawk.py`, module `Mawk`).
  - A rule is a pattern anchored at column 0 together with a handler.
  - `match_filter` keeps the line, keeps it when the handler answers `None`, or replaces it by the handler's list.
  - `run` sends every line through every rule. Line-major, rule-minor, every rule sees the original line.
  - `RuleSet.run` dispatches the public, tagged attributes in `dir()` order, which is alphabetical.
  - Handlers update their owner object. Here that owner's state is a value `S`, which the engine threads from one rule application to the next.
- **The two analyses** (`code_analysis/scans.py`, modules `Patterns` and `Scans`).
  - `Patterns` writes the five regular expressions out as recognizers with Python `re.match` semantics: anchored, greedy, backtracking. It also writes out the two `re.findall` scans.
  - `Scans` states the handlers twice:
    - as functions over a `TraceState` value;
    - as methods of the classes `ListFunctions` and `TraceGlobals`, which update their fields in place and are proved equal to those functions.
  - `function_list` and `trace_flow` are methods over a list of file contents.
- **The data behind `graph`** (`code_analysis/app.py` lines 41-51 and 61-62, module `Graph`):
  - the `write_count` loop and the `write_once` set;
  - the three columns of each function and the `zip_longest` of their sorted contents;
  - the edge loop.

`Order` models Python's `<` on strings and `sorted` on a set of strings. `Wrappers` holds `Option`.

## Model

| member | source | states |
|---|---|---|
| Mawk.MatchFilter | code_analysis/mawk.py:10-18 | No match: the line comes back alone and the handler is not run, so the state is untouched. A match whose handler answers `None`: the line comes back alone. A match whose handler answers a list: that list comes back verbatim. The output is empty exactly when the handler answered the empty list, i.e. the line is erased. |
| Mawk.SplitLines | code_analysis/mawk.py:60 | No piece contains a newline, and a text has no lines exactly when it is empty. |
| Mawk.SplitLinesTrailing | code_analysis/mawk.py:60 | A final newline ends the last line and does not start an empty one: joining the lines of such a text gives it back without that newline. With the round-trip below, this fixes the lines of every text. |
| Mawk.JoinSplitLines | code_analysis/mawk.py:60-65 | Joining the lines of a text with `"\n"` gives the text back, provided it does not end in a newline. |
| Mawk.SplitLinesJoin | code_analysis/mawk.py:60-65 | Splitting the join of newline-free lines gives the lines back, provided the last one is not empty. |
| Mawk.ApplyRulesSplit | code_analysis/mawk.py:62-64 | Rules are not chained. Split the rule list anywhere: the second part still receives the original line, starts from the state the first part left, and the outputs concatenate in rule order. |
| Mawk.RunLinesAppend | code_analysis/mawk.py:60-64 | Line-major order: running the lines `a + b` is running `a`, then `b` from the resulting state, with the outputs concatenated. |
| Mawk.RunWithoutRules | code_analysis/mawk.py:60-65 | With no rules, the state does not change, no line is produced and the result is `""`. |
| Mawk.KeepingRulesRepeatLines | code_analysis/mawk.py:60-65 | With `k` rules whose handlers always answer `None`, every input line appears `k` times in a row, lines in input order. |
| Mawk.KeepDispatched | code_analysis/mawk.py:73-74 | Keeps exactly the names that are public (not starting with `_`) and tagged, and a sorted list stays sorted. |
| Mawk.DispatchNames | code_analysis/mawk.py:73-74 | The dispatched attribute names are strictly alphabetical, and a name is among them exactly when it is public and tagged. |
| Mawk.DispatchOrder | code_analysis/mawk.py:73-74 | Any strictly sorted list of exactly the public tagged names is the dispatch order, so that order is unique. |
| Mawk.RulesNamed | code_analysis/mawk.py:74 | One rule per dispatched name: the `i`-th rule is the method bound to the `i`-th name. |
| Mawk.Run | code_analysis/mawk.py:54-65 | The nested loop leaves the state after every line has gone through every rule, and its result is the line-major, rule-minor concatenation of the rule outputs, joined by `"\n"`. |
| Mawk.RunRuleSet | code_analysis/mawk.py:71-75 | Runs exactly the dispatched rules, in `dir()` order, through `run`. |
| Order.LessTotal | code_analysis/mawk.py:73 | Python string order is total on distinct strings, so `dir()` order is well defined. |
| Order.LessTransitive | code_analysis/mawk.py:73 | Python string order is transitive. |
| Order.SortSet | code_analysis/app.py:51 | `sorted(s)` is strictly increasing, has as many entries as `s` has elements, and holds exactly the elements of `s`. |
| Order.SortSetIs | code_analysis/app.py:51 | `sorted(s)` is the only strictly increasing enumeration of `s`. |
| Patterns.DefPattern | code_analysis/scans.py:14 | Matches exactly when the line starts with `function` and a space, identifier, `(glob,` and a later `)` follow. The captured name comes from the rightmost such candidate, as greedy `.*` gives. |
| Patterns.DefinitionLineShape | code_analysis/scans.py:14-17 | A recognized definition line begins with `function` and holds ` <name>(glob,` at column 8 or later, with a `)` after it. The name is a non-empty identifier. |
| Patterns.DefinitionLineRecognized | code_analysis/scans.py:14-17 | Conversely, every line of that shape is recognized as a definition line. |
| Patterns.AssignPattern | code_analysis/scans.py:33 | Matches exactly when some `glob.` can start the assignment pattern. Before it: no `=` or `%`. After it: letters (no `_`), then no `=<>;`, up to an `=` not followed by `=`. The captured variable is the letters after the rightmost such `glob.`. |
| Patterns.EqualityIsNotAssignment | code_analysis/scans.py:33 | When the first `=` of a line begins `==`, the assignment pattern fails. |
| Patterns.AccessPattern | code_analysis/scans.py:39 | Matches exactly when the line holds `glob.` followed by an identifier character. `m[0]` is the whole line. |
| Patterns.FindGlobRefs | code_analysis/scans.py:44 | Every name `findall` yields is the identifier after some `glob.` of the line. |
| Patterns.AccessMatchesIffFound | code_analysis/scans.py:39-44 | The access pattern matches exactly when `findall` finds at least one reference. |
| Patterns.GlobRefFound | code_analysis/scans.py:44 | `findall` finds every `glob.<name>` that does not lie inside the name of an earlier reference. There is no word boundary, so a `glob` right after an identifier character or a `.` is found too. |
| Patterns.GlobRefInsideWord | code_analysis/scans.py:44 | The reference in `xglob.a` is found: the pattern has no word boundary. |
| Patterns.CallPattern | code_analysis/scans.py:47 | Matches exactly when the line does not start with spaces and `function`, and has a `(` right after an identifier character. `m[0]` is the whole line. |
| Patterns.FindCalls | code_analysis/scans.py:49 | Every name `findall` yields is a whole identifier run directly followed by `(`. |
| Patterns.FindCallsAreCallNames | code_analysis/scans.py:49 | `findall` yields exactly the identifiers directly followed by `(` that do not continue another identifier: left to right, one per occurrence, duplicates kept. |
| Scans.Record | code_analysis/scans.py:37 | `d[k].add(v)` for each `v`: the entry of `k` gains `vs`, every other entry is unchanged, and a key appears only if something is added. |
| Scans.Extend | code_analysis/scans.py:51 | `d[k].append(x)` for each `x`: the list of `k` gains `xs` at its end, every other list is unchanged. |
| Scans.ExtendTwice | code_analysis/scans.py:49-51 | Appending `xs` and then `ys` is appending `xs + ys`. |
| Scans.Elements | code_analysis/scans.py:44-45 | The set of names added is exactly the names found. |
| Scans.KnownOnlyKeeps | code_analysis/scans.py:49-51 | Keeps every occurrence of a known function (same multiplicity) and drops every other name. |
| Scans.KnownOnlyAppend | code_analysis/scans.py:49-51 | The filter distributes over concatenation, so the kept names stay in input order. |
| Scans.ListOpenFunctionHandler | code_analysis/scans.py:14-17 | The matched name joins `functions`, and the line is kept. |
| Scans.ListDispatch | code_analysis/scans.py:10-17 | `ListFunctions.run` dispatches `open_function` and nothing else. |
| Scans.ListDispatchRules | code_analysis/scans.py:10-17 | The rule list `ListFunctions.run` hands to the engine is the single definition rule. |
| Scans.OpenFunctionHandler | code_analysis/scans.py:28-31 | The cursor moves to the matched name. No map and not `functions` changes, and the line is kept. |
| Scans.GlobAssignHandler | code_analysis/scans.py:33-37 | With no cursor nothing changes. Otherwise the captured variable joins the cursor's assignments, nothing else changes, and the line is kept. |
| Scans.GlobAccessHandler | code_analysis/scans.py:39-45 | With no cursor nothing changes. Otherwise every reference `findall` finds in `m[0]` joins the cursor's accesses, nothing else changes, and the line is kept. |
| Scans.CallGraphHandler | code_analysis/scans.py:47-51 | Appends the known callees `findall` finds, in order and with repetitions, to the list of the cursor. This happens even when the cursor is `None`. Nothing else changes. |
| Scans.TraceRuleNamesSorted | code_analysis/scans.py:28-51 | `call_graph` < `glob_access` < `glob_assign` < `open_function` in Python string order. |
| Scans.TraceDispatch | code_analysis/scans.py:20-51 | `TraceGlobals.run` dispatches exactly its four rules, in the order `call_graph`, `glob_access`, `glob_assign`, `open_function`. |
| Scans.TraceDispatchRules | code_analysis/scans.py:20-51 | The rule list handed to the engine is those four rules in that order, so the cursor moves only after the other three have seen the line. |
| Scans.TraceLine | code_analysis/scans.py:28-51 | One line's effect, field by field, against the cursor as it was before the line. The cursor moves only on a definition line. The assignment, access and call records all go to the old cursor, and nothing is recorded under a function other than the cursor. Maps with no empty entry keep that property. |
| Scans.AccessRecordsReference | code_analysis/scans.py:44-45 | Every `glob.<name>` on a line that does not lie inside the name of an earlier reference is recorded as accessed by the function under the cursor. |
| Scans.CallsRecorded | code_analysis/scans.py:47-51 | The cursor's call list grows by the call occurrences of the line, left to right, duplicates kept, unknown names dropped. A line starting with spaces and `function` adds nothing. |
| Scans.ComparisonIsAccessNotAssignment | code_analysis/scans.py:33-45 | `if (glob.x == 1)` records `x` as accessed and records no assignment. |
| Scans.TraceLineConsistent | code_analysis/scans.py:28-51 | If the function a line may define is known, the trace keeps three properties: the cursor and every record refer to known functions, no map entry is empty, and earlier records are kept. |
| Scans.TraceLinesConsistent | code_analysis/scans.py:28-51 | The same for a whole text whose definitions are all known. `functions` never changes. |
| Scans.NoCursorRecordsNothing | code_analysis/scans.py:35-42 | Without a cursor, lines that define nothing record no assignment and no access, and leave the cursor unset. |
| Scans.ListLinesAdd | code_analysis/scans.py:14-17 | A text adds to `functions` exactly the names its definition lines define, and nothing else. |
| Scans.FileNamesAre | code_analysis/scans.py:54-58 | The names one file contributes are those its definition lines define. |
| Scans.DefinedNamesAre | code_analysis/scans.py:54-58 | `function_list` returns exactly the names some file defines. |
| Scans.DefinedNamesUnion | code_analysis/scans.py:54-58 | `function_list` of two lists of files is the union of their results, so duplicates collapse. |
| Scans.DefinedNamesIdempotent | code_analysis/scans.py:54-58 | Listing the same files again adds nothing. |
| Scans.Initial | code_analysis/scans.py:21-26 | A fresh `TraceGlobals(functions=known)` has no cursor, knows `known` and is consistent. |
| Scans.TraceFilesConsistent | code_analysis/scans.py:61-66 | When every file's definitions are known, tracing the files keeps the trace consistent and keeps `functions`. The maps accumulate across files. |
| Scans.LeadingLinesRecordNothing | code_analysis/scans.py:63-65 | The cursor is reset before each file, so the lines of the last file before its first definition leave the cursor unset and record no assignment and no access. The file then has the effect of its remaining lines alone. |
| Scans.TraceFilesGrow | code_analysis/scans.py:63-65 | The trace of any prefix of the files is contained in the trace of all of them. |
| Scans.NoCarryOver | code_analysis/scans.py:63-65 | The cursor is reset before each file: a last file that defines nothing adds no assignment and no access. |
| Scans.TraceRulesKeepLines | code_analysis/scans.py:28-51 | No `TraceGlobals` handler returns lines, so every rule keeps its line. |
| Scans.ListFunctions.constructor | code_analysis/scans.py:12 | A new `ListFunctions` has no names. |
| Scans.ListFunctions.OpenFunction | code_analysis/scans.py:15-17 | In place: the field becomes what the handler function gives. |
| Scans.ListFunctions.Run | code_analysis/scans.py:10-17 | The names the text defines join `functions`, and the output is the text's lines, each once. |
| Scans.TraceGlobals.constructor | code_analysis/scans.py:21-26 | The fields form the fresh trace for the given known names. |
| Scans.TraceGlobals.OpenFunction | code_analysis/scans.py:29-31 | In place: the fields become what the handler function gives. |
| Scans.TraceGlobals.GlobAssign | code_analysis/scans.py:34-37 | In place: the fields become what the handler function gives. |
| Scans.TraceGlobals.GlobAccess | code_analysis/scans.py:40-45 | The `findall` loop, in place: the fields become what the handler function gives. |
| Scans.TraceGlobals.CallGraph | code_analysis/scans.py:48-51 | The `findall` loop, in place, one `append` per known callee: the fields become what the handler function gives. |
| Scans.TraceGlobals.Run | code_analysis/scans.py:20-51 | The fields end as the four rules leave them after every line, and the output repeats each line four times. |
| Scans.FunctionList | code_analysis/scans.py:54-58 | One `ListFunctions` run over every file in turn returns the names of `DefinedNames`, i.e. the union over the files. |
| Scans.TraceFlow | code_analysis/scans.py:61-66 | A fresh `TraceGlobals` knows `function_list(fs)` and runs every file with the cursor reset before each. |
| Scans.TraceFlowConsistent | code_analysis/scans.py:61-66 | What `trace_flow` returns is consistent, knows exactly `function_list(fs)`, and contains the trace of every prefix of the files. |
| Graph.WriteCountsAre | code_analysis/app.py:41-44 | A variable has a count exactly when some function writes it, and its count is the number of functions that write it (at least 1). |
| Graph.CountEach | code_analysis/app.py:43-44 | The inner loop adds one to the count of every variable the function assigns, starting from 0 for a new key, and changes nothing else. |
| Graph.WriteCount | code_analysis/app.py:41-44 | The nested loop leaves, for every written variable, the number of functions that write it. |
| Graph.WriteOnceIsOneWriter | code_analysis/app.py:45 | A variable is write-once exactly when a single function assigns it. An unassigned variable is never write-once. |
| Graph.ClassifyIs | code_analysis/app.py:48-50 | const = accessed and write-once. Read-only = accessed, not assigned here, and not write-once. Modify = everything the function assigns. const and read-only lie within the accessed variables, read-only is disjoint from the other two, and every accessed variable lands in a column. |
| Graph.ConstHasOneWriter | code_analysis/app.py:45-48 | A variable in a function's const column is written by exactly one known function. |
| Graph.ZipLongest | code_analysis/app.py:51 | As many rows as the longest column. Row `i` holds the `i`-th entry of each column, or nothing where that column has run out. |
| Graph.Table | code_analysis/app.py:51 | A table has `max(|consts|, |readonly|, |readwrite|)` rows. |
| Graph.TableSorted | code_analysis/app.py:51 | Each column of a table is sorted, with its entries at the top and the empty cells below. |
| Graph.TableCovers | code_analysis/app.py:51 | Each column of a table shows exactly the variables of that column. |
| Graph.EdgesFrom | code_analysis/app.py:61-62 | One edge `f -> e` per entry `e` of the call list, in the same order, so each callee appears as often as it occurs in the list. |
| Graph.AddEdges | code_analysis/app.py:61-62 | The edge loop appends one edge `f -> e` per entry of the call list, in order. |
| Graph.Node | code_analysis/app.py:47-62 | One pass of the loop body: the table of `f` is added and its call edges are appended. |
| Graph.Render | code_analysis/app.py:47-62 | One table per known function, built from its columns, and one edge per recorded call entry of a known function, duplicates included. Calls recorded under `None` are never drawn. |

## Left out

- Introspection in `on_match` (`__qualname__`, `functools.wraps`, `partial`, setting `_is_rule`) is not modelled. A rule-set object is given as a map from attribute names to attributes, and an `on_match` method is an attribute tagged with its pattern and handler.
- Each such map shows the class's own attributes and two dunder names (`__eq__`, `__init__`) standing for all the inherited ones. Python attribute names are never empty, hence `requires "" !in attrs`.
- Handlers are functions from the owner's state to a new state, and the engine threads that state. The in-place updates are modelled separately, as the class methods proved equal to those functions; the engine itself never calls a method.
- File reading in `function_list` and `trace_flow` is not modelled. The file contents are passed in as strings.
- `str.splitlines` splits on `'\n'` only. The other Unicode line boundaries and `"\r\n"` are not modelled.
- The Click commands, printing, and graphviz rendering are not modelled: the HTML label text, node shapes, `rankdir` and the output format and engine. The model stops at the rows of each table and the list of edges.
- `Graph.Render`: the edges are stated as a multiset, and each function's own edges keep the order of its call list (`Graph.EdgesFrom`, `Graph.AddEdges`). The order across functions follows Python's set iteration order, which is not specified.
- `Graph.WriteCount`: functions are visited in an arbitrary order for the same reason. Only the final counts are stated, and they do not depend on that order.
- In `graph`, reading `t.assignments[f]`, `t.access[f]` and `t.calls[f]` inserts empty entries into those `defaultdict`s. The model reads them without inserting. Nothing later in `graph` reads those maps' keys.
- The joined text that `RuleSet.run` returns is modelled, but the analyses discard it.
- Python compares strings by code point, and `Order.Less` compares Dafny `char`s. The two orders agree on the identifiers these names are made of.

## Findings

None. Every property the code promises was proved of the code as written. `call_graph` records calls under a `None` cursor (calls made before the first definition of a file), and `graph` never draws them. The model keeps that behaviour; see `Scans.CallGraphHandler` and `Graph.Render`.
