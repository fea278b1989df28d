/**
 * The two analyses of code_analysis/scans.py, built on the rule engine.
 *
 * `ListFunctions` collects the names of the functions defined in a source
 * text. `TraceGlobals` walks a source text line by line with a cursor on the
 * function being defined and records, per function, the `glob.` variables it
 * assigns and accesses and the known functions it calls.
 *
 * The handlers are stated twice: as the functions the engine threads the
 * state through, and as methods of the two classes that update their fields
 * in place, each proved to leave the fields as the function says.
 */
module Scans {
  import opened Wrappers
  import opened Mawk
  import opened Patterns
  import Order

  // ---------------------------------------------------------------------
  // `defaultdict(set)` and `defaultdict(list)`

  /** Reading `d[k]` from a `defaultdict(set)`: a missing key reads as the empty set. */
  function Entries(d: map<string, set<string>>, k: string): set<string>
  {
    if k in d then d[k] else {}
  }

  /** Reading `d[k]` from a `defaultdict(list)`: a missing key reads as the empty list. */
  function Lookup(d: map<Option<string>, seq<string>>, k: Option<string>): seq<string>
  {
    if k in d then d[k] else []
  }

  /** No entry of the map is empty: a `defaultdict` only gains a key when something is added under it. */
  predicate Tidy(d: map<string, set<string>>)
  {
    forall k :: k in d ==> d[k] != {}
  }

  predicate TidyCalls(d: map<Option<string>, seq<string>>)
  {
    forall k :: k in d ==> d[k] != []
  }

  /** `d[k].add(v)` for every `v` in `vs`. */
  function Record(d: map<string, set<string>>, k: string, vs: set<string>): (r: map<string, set<string>>)
    ensures forall j :: j in r <==> j in d || (j == k && vs != {})
    ensures forall j :: Entries(r, j) == Entries(d, j) + (if j == k then vs else {})
    ensures Tidy(d) ==> Tidy(r)
  {
    if vs == {} then d else d[k := Entries(d, k) + vs]
  }

  /** `d[k].append(x)` for every `x` in `xs`, in order. */
  function Extend(d: map<Option<string>, seq<string>>, k: Option<string>, xs: seq<string>): (r: map<Option<string>, seq<string>>)
    ensures forall j :: j in r <==> j in d || (j == k && xs != [])
    ensures forall j :: Lookup(r, j) == Lookup(d, j) + (if j == k then xs else [])
    ensures TidyCalls(d) ==> TidyCalls(r)
  {
    if xs == [] then d else d[k := Lookup(d, k) + xs]
  }

  lemma ExtendTwice(d: map<Option<string>, seq<string>>, k: Option<string>, xs: seq<string>, ys: seq<string>)
    ensures Extend(Extend(d, k, xs), k, ys) == Extend(d, k, xs + ys)
  {
    if xs != [] && ys != [] {
      assert Lookup(d, k) + xs + ys == Lookup(d, k) + (xs + ys);
    } else if xs == [] {
      assert xs + ys == ys;
    } else {
      assert xs + ys == xs;
    }
  }

  /** The elements of a list, as a set. */
  function Elements(xs: seq<string>): (r: set<string>)
    ensures forall x :: x in r <==> x in xs
  {
    set x | x in xs
  }

  /** `[x for x in xs if x in known]`: order and repetitions kept. */
  function KnownOnly(xs: seq<string>, known: set<string>): seq<string>
    decreases |xs|
  {
    if xs == [] then []
    else
      var x := xs[|xs| - 1];
      KnownOnly(xs[..|xs| - 1], known) + (if x in known then [x] else [])
  }

  /** The known names keep every one of their occurrences; the others are all dropped. */
  lemma {:induction false} KnownOnlyKeeps(xs: seq<string>, known: set<string>)
    ensures var r := KnownOnly(xs, known);
      (forall x :: multiset(r)[x] == if x in known then multiset(xs)[x] else 0) &&
      (forall x :: x in r <==> x in xs && x in known)
    decreases |xs|
  {
    if xs != [] {
      var n := |xs| - 1;
      KnownOnlyKeeps(xs[..n], known);
      assert xs == xs[..n] + [xs[n]];
    }
  }

  /** Filtering distributes over concatenation: what is kept stays in input order. */
  lemma {:induction false} KnownOnlyAppend(xs: seq<string>, ys: seq<string>, known: set<string>)
    ensures KnownOnly(xs + ys, known) == KnownOnly(xs, known) + KnownOnly(ys, known)
    decreases |ys|
  {
    if ys == [] {
      assert xs + ys == xs;
    } else {
      var n := |ys| - 1;
      var y := ys[n];
      var zs := xs + ys;
      var tail := if y in known then [y] else [];
      assert KnownOnly(zs, known) == KnownOnly(xs + ys[..n], known) + tail by {
        assert zs[..|zs| - 1] == xs + ys[..n];
        assert zs[|zs| - 1] == y;
      }
      assert KnownOnly(xs + ys[..n], known) == KnownOnly(xs, known) + KnownOnly(ys[..n], known) by {
        KnownOnlyAppend(xs, ys[..n], known);
      }
      assert KnownOnly(ys, known) == KnownOnly(ys[..n], known) + tail;
      assert KnownOnly(xs, known) + KnownOnly(ys[..n], known) + tail ==
             KnownOnly(xs, known) + (KnownOnly(ys[..n], known) + tail);
    }
  }

  // ---------------------------------------------------------------------
  // ListFunctions (scans.py lines 10-17)

  /** `ListFunctions.open_function`: the matched name joins `functions`. */
  function ListOpenFunctionHandler(fns: set<string>, m: Match): (r: (set<string>, Handled))
    ensures r.0 == fns + {m.group} && r.1 == NoOutput
  {
    (fns + {m.group}, NoOutput)
  }

  /** The attributes `dir()` lists for a `ListFunctions` object (dunder attributes represented by two). */
  function ListAttrs(): map<string, Attr<set<string>>>
  {
    map[
      "__eq__" := Untagged,
      "__init__" := Untagged,
      "functions" := Untagged,
      "open_function" := Tagged(Rule(DefPattern, ListOpenFunctionHandler)),
      "run" := Untagged
    ]
  }

  function ListRules(): seq<Rule<set<string>>>
  {
    [Rule(DefPattern, ListOpenFunctionHandler)]
  }

  /** `ListFunctions.run` dispatches `open_function` only. */
  lemma ListDispatch()
    ensures DispatchNames(ListAttrs()) == ["open_function"]
  {
    ListRuleNameDispatched();
    DispatchOrder(ListAttrs(), ["open_function"]);
  }

  /** The rule list `ListFunctions.run` hands to the engine is the one `open_function` rule. */
  lemma ListDispatchRules()
    ensures DispatchRules(ListAttrs()) == ListRules()
  {
    ListDispatch();
    ListRulesNamed();
  }

  lemma ListRulesNamed()
    ensures RulesNamed(ListAttrs(), ["open_function"]) == ListRules()
  {
    var rules := RulesNamed(ListAttrs(), ["open_function"]);
    assert rules[0] == ListAttrs()["open_function"].rule;
  }

  lemma ListRuleNameDispatched()
    ensures forall n :: n in ["open_function"] <==> Dispatched(ListAttrs(), n)
  {
  }

  // ---------------------------------------------------------------------
  // TraceGlobals (scans.py lines 20-51)

  /** The fields of a `TraceGlobals` object; `calls` is keyed by the cursor, which may be `None`. */
  datatype TraceState = TraceState(
    functions: set<string>,
    currentFn: Option<string>,
    assignments: map<string, set<string>>,
    access: map<string, set<string>>,
    calls: map<Option<string>, seq<string>>)

  /** `TraceGlobals.open_function`: the cursor moves to the matched name; no map changes. */
  function OpenFunctionHandler(s: TraceState, m: Match): (r: (TraceState, Handled))
    ensures r.1 == NoOutput
    ensures r.0.currentFn == Some(m.group)
    ensures r.0.functions == s.functions && r.0.assignments == s.assignments
    ensures r.0.access == s.access && r.0.calls == s.calls
  {
    (s.(currentFn := Some(m.group)), NoOutput)
  }

  /** `TraceGlobals.glob_assign`: with a cursor, the captured variable joins its assignments. */
  function GlobAssignHandler(s: TraceState, m: Match): (r: (TraceState, Handled))
    ensures r.1 == NoOutput
    ensures r.0.functions == s.functions && r.0.currentFn == s.currentFn
    ensures r.0.access == s.access && r.0.calls == s.calls
    ensures s.currentFn.None? ==> r.0.assignments == s.assignments
    ensures forall f :: Entries(r.0.assignments, f) ==
                        Entries(s.assignments, f) + (if s.currentFn == Some(f) then {m.group} else {})
  {
    match s.currentFn
    case None => (s, NoOutput)
    case Some(f) => (s.(assignments := Record(s.assignments, f, {m.group})), NoOutput)
  }

  /** `TraceGlobals.glob_access`: with a cursor, every `glob.` reference `findall` finds in `m[0]` joins its accesses. */
  function GlobAccessHandler(s: TraceState, m: Match): (r: (TraceState, Handled))
    ensures r.1 == NoOutput
    ensures r.0.functions == s.functions && r.0.currentFn == s.currentFn
    ensures r.0.assignments == s.assignments && r.0.calls == s.calls
    ensures s.currentFn.None? ==> r.0.access == s.access
    ensures forall f :: Entries(r.0.access, f) ==
                        Entries(s.access, f) + (if s.currentFn == Some(f) then Elements(FindGlobRefs(m.whole, 0)) else {})
  {
    match s.currentFn
    case None => (s, NoOutput)
    case Some(f) => (s.(access := Record(s.access, f, Elements(FindGlobRefs(m.whole, 0)))), NoOutput)
  }

  /**
   * `TraceGlobals.call_graph`: every identifier `findall` finds before a `(`
   * in `m[0]` that names a known function is appended, in order and with
   * repetitions, to the list of the cursor, even when the cursor is `None`.
   */
  function CallGraphHandler(s: TraceState, m: Match): (r: (TraceState, Handled))
    ensures r.1 == NoOutput
    ensures r.0.functions == s.functions && r.0.currentFn == s.currentFn
    ensures r.0.assignments == s.assignments && r.0.access == s.access
    ensures forall k :: Lookup(r.0.calls, k) ==
                        Lookup(s.calls, k) + (if k == s.currentFn then KnownOnly(FindCalls(m.whole, 0), s.functions) else [])
  {
    (s.(calls := Extend(s.calls, s.currentFn, KnownOnly(FindCalls(m.whole, 0), s.functions))), NoOutput)
  }

  /** The attributes `dir()` lists for a `TraceGlobals` object (dunder attributes represented by two). */
  function TraceAttrs(): map<string, Attr<TraceState>>
  {
    map[
      "__eq__" := Untagged,
      "__init__" := Untagged,
      "access" := Untagged,
      "assignments" := Untagged,
      "call_graph" := Tagged(Rule(CallPattern, CallGraphHandler)),
      "calls" := Untagged,
      "current_fn" := Untagged,
      "functions" := Untagged,
      "glob_access" := Tagged(Rule(AccessPattern, GlobAccessHandler)),
      "glob_assign" := Tagged(Rule(AssignPattern, GlobAssignHandler)),
      "open_function" := Tagged(Rule(DefPattern, OpenFunctionHandler)),
      "run" := Untagged
    ]
  }

  function TraceRules(): seq<Rule<TraceState>>
  {
    [Rule(CallPattern, CallGraphHandler), Rule(AccessPattern, GlobAccessHandler),
     Rule(AssignPattern, GlobAssignHandler), Rule(DefPattern, OpenFunctionHandler)]
  }

  /** The names of the four `TraceGlobals` rules, alphabetically. */
  function TraceRuleNames(): seq<string>
  {
    ["call_graph", "glob_access", "glob_assign", "open_function"]
  }

  lemma TraceRuleNamesSorted()
    ensures Order.StrictlySorted(TraceRuleNames())
  {
    var names := TraceRuleNames();
    assert Order.Less(names[0], names[1]);
    assert Order.Less(names[1], names[2]) by {
      assert names[1][..6] == names[2][..6];
      assert names[1][6..] == "ccess" && names[2][6..] == "ssign";
    }
    assert Order.Less(names[2], names[3]);
    Order.LessTransitive(names[0], names[1], names[2]);
    Order.LessTransitive(names[0], names[2], names[3]);
    Order.LessTransitive(names[1], names[2], names[3]);
  }

  lemma TraceRuleNamesDispatched()
    ensures forall n :: n in TraceRuleNames() <==> Dispatched(TraceAttrs(), n)
  {
  }

  /**
   * `TraceGlobals.run` dispatches its four rules alphabetically, so
   * `open_function` comes last: the cursor moves only after the other three
   * rules have seen the line.
   */
  lemma TraceDispatch()
    ensures DispatchNames(TraceAttrs()) == TraceRuleNames()
  {
    TraceRuleNamesSorted();
    TraceRuleNamesDispatched();
    DispatchOrder(TraceAttrs(), TraceRuleNames());
  }

  /** The rule list `TraceGlobals.run` hands to the engine: `call_graph`, `glob_access`, `glob_assign`, `open_function`. */
  lemma TraceDispatchRules()
    ensures DispatchRules(TraceAttrs()) == TraceRules()
  {
    TraceDispatch();
    TraceRulesNamed();
  }

  lemma TraceRulesNamed()
    ensures RulesNamed(TraceAttrs(), TraceRuleNames()) == TraceRules()
  {
    var attrs, names := TraceAttrs(), TraceRuleNames();
    var rules := RulesNamed(attrs, names);
    assert rules[0] == attrs["call_graph"].rule;
    assert rules[1] == attrs["glob_access"].rule;
    assert rules[2] == attrs["glob_assign"].rule;
    assert rules[3] == attrs["open_function"].rule;
  }

  /** A `findall` for calls finds something only where the call pattern has a parenthesis to match. */
  lemma CallsNeedParen(l: string)
    ensures FindCalls(l, 0) != [] ==> exists q :: CallParenAt(l, q)
  {
    if FindCalls(l, 0) != [] {
      assert FindCalls(l, 0)[0] in FindCalls(l, 0);
      var b :| CallNameAt(l, b);
      assert CallParenAt(l, RunEnd(l, b, IsIdentChar));
    }
  }

  /** `call_graph` applied to a line: only `calls` changes. */
  lemma CallStep(s: TraceState, l: string)
    ensures var r := MatchFilter(Rule(CallPattern, CallGraphHandler), s, l).0;
            r.functions == s.functions && r.currentFn == s.currentFn &&
            r.assignments == s.assignments && r.access == s.access &&
            (StartsAsDefinition(l) || CallPattern(l).None? ==> r.calls == s.calls) &&
            (forall k :: Lookup(r.calls, k) ==
                         Lookup(s.calls, k) +
                         (if k == s.currentFn && !StartsAsDefinition(l) then KnownOnly(FindCalls(l, 0), s.functions) else [])) &&
            (forall k :: k in r.calls ==> k in s.calls || k == s.currentFn) &&
            (TidyCalls(s.calls) ==> TidyCalls(r.calls))
  {
    CallsNeedParen(l);
  }

  /** `glob_access` applied to a line: only `access` changes. */
  lemma AccessStep(s: TraceState, l: string)
    ensures var r := MatchFilter(Rule(AccessPattern, GlobAccessHandler), s, l).0;
            r.functions == s.functions && r.currentFn == s.currentFn &&
            r.assignments == s.assignments && r.calls == s.calls &&
            (s.currentFn.None? || AccessPattern(l).None? ==> r.access == s.access) &&
            (forall f :: Entries(r.access, f) ==
                         Entries(s.access, f) + (if s.currentFn == Some(f) then Elements(FindGlobRefs(l, 0)) else {})) &&
            (forall f :: f in r.access ==> f in s.access || s.currentFn == Some(f)) &&
            (Tidy(s.access) ==> Tidy(r.access))
  {
    AccessMatchesIffFound(l, 0);
  }

  /** `glob_assign` applied to a line: only `assignments` changes. */
  lemma AssignStep(s: TraceState, l: string)
    ensures var r := MatchFilter(Rule(AssignPattern, GlobAssignHandler), s, l).0;
            r.functions == s.functions && r.currentFn == s.currentFn &&
            r.access == s.access && r.calls == s.calls &&
            (s.currentFn.None? || AssignPattern(l).None? ==> r.assignments == s.assignments) &&
            (forall f :: Entries(r.assignments, f) ==
                         Entries(s.assignments, f) +
                         (if s.currentFn == Some(f) && AssignPattern(l).Some? then {AssignPattern(l).value.group} else {})) &&
            (forall f :: f in r.assignments ==> f in s.assignments || s.currentFn == Some(f)) &&
            (Tidy(s.assignments) ==> Tidy(r.assignments))
  {
  }

  /** `open_function` applied to a line: only the cursor changes. */
  lemma OpenStep(s: TraceState, l: string)
    ensures var r := MatchFilter(Rule(DefPattern, OpenFunctionHandler), s, l).0;
            r.functions == s.functions && r.assignments == s.assignments &&
            r.access == s.access && r.calls == s.calls &&
            r.currentFn == if DefPattern(l).Some? then Some(DefPattern(l).value.group) else s.currentFn
  {
  }

  /**
   * One line through `TraceGlobals.run`: the four rules in `dir()` order, all
   * seeing the same line and the cursor as it was before the line.
   */
  function TraceLine(s: TraceState, l: string): (r: TraceState)
    ensures r.functions == s.functions
    ensures r.currentFn == if DefPattern(l).Some? then Some(DefPattern(l).value.group) else s.currentFn
    ensures forall f :: Entries(r.assignments, f) ==
                        Entries(s.assignments, f) +
                        (if s.currentFn == Some(f) && AssignPattern(l).Some? then {AssignPattern(l).value.group} else {})
    ensures forall f :: Entries(r.access, f) ==
                        Entries(s.access, f) + (if s.currentFn == Some(f) then Elements(FindGlobRefs(l, 0)) else {})
    ensures forall k :: Lookup(r.calls, k) ==
                        Lookup(s.calls, k) +
                        (if k == s.currentFn && !StartsAsDefinition(l) then KnownOnly(FindCalls(l, 0), s.functions) else [])
    ensures s.currentFn.None? || AssignPattern(l).None? ==> r.assignments == s.assignments
    ensures s.currentFn.None? || AccessPattern(l).None? ==> r.access == s.access
    ensures StartsAsDefinition(l) || CallPattern(l).None? ==> r.calls == s.calls
    ensures forall f :: f in r.assignments ==> f in s.assignments || s.currentFn == Some(f)
    ensures forall f :: f in r.access ==> f in s.access || s.currentFn == Some(f)
    ensures forall k :: k in r.calls ==> k in s.calls || k == s.currentFn
    ensures Tidy(s.assignments) ==> Tidy(r.assignments)
    ensures Tidy(s.access) ==> Tidy(r.access)
    ensures TidyCalls(s.calls) ==> TidyCalls(r.calls)
  {
    var rules := TraceRules();
    var s1 := MatchFilter(rules[0], s, l).0;
    var s2 := MatchFilter(rules[1], s1, l).0;
    var s3 := MatchFilter(rules[2], s2, l).0;
    TraceLineSteps(s, l);
    CallStep(s, l);
    AccessStep(s1, l);
    AssignStep(s2, l);
    OpenStep(s3, l);
    ApplyRules(rules, s, l).0
  }

  /** The four rule applications of one line, one after the other. */
  lemma TraceLineSteps(s: TraceState, l: string)
    ensures var rules := TraceRules();
            var s1 := MatchFilter(rules[0], s, l).0;
            var s2 := MatchFilter(rules[1], s1, l).0;
            var s3 := MatchFilter(rules[2], s2, l).0;
            ApplyRules(rules, s, l).0 == MatchFilter(rules[3], s3, l).0
  {
    var rules := TraceRules();
    var r3, r2, r1 := rules[..3], rules[..2], rules[..1];
    assert r1[..0] == [] && r1[0] == rules[0];
    assert r2[..1] == r1 && r2[1] == rules[1];
    assert r3[..2] == r2 && r3[2] == rules[2];
    assert rules[..3] == r3;
    assert ApplyRules(r1[..0], s, l).0 == s;
    var s1 := ApplyRules(r1, s, l).0;
    assert s1 == MatchFilter(rules[0], s, l).0;
    var s2 := ApplyRules(r2, s, l).0;
    assert s2 == MatchFilter(rules[1], s1, l).0;
    var s3 := ApplyRules(r3, s, l).0;
    assert s3 == MatchFilter(rules[2], s2, l).0;
  }

  // ---------------------------------------------------------------------
  // What one line does to the trace

  /**
   * Every `glob.<name>` on a line is recorded as accessed by the function
   * under the cursor, unless it lies inside the name of an earlier reference
   * (`glob.glob.a`, `glob.aglob.b`), which `findall` has already consumed.
   */
  lemma AccessRecordsReference(s: TraceState, l: string, f: string, i: nat)
    requires s.currentFn == Some(f)
    requires GlobRefAt(l, i)
    requires forall j :: 0 <= j < i && GlobRefAt(l, j) ==> RunEnd(l, j + 5, IsIdentChar) <= i
    ensures RefName(l, i) in Entries(TraceLine(s, l).access, f)
  {
    GlobRefFound(l, 0, i);
  }

  /**
   * The calls a line records under the cursor: the identifiers directly
   * followed by `(`, left to right, repetitions kept, unknown names dropped,
   * and nothing at all on a line that starts (after spaces) with `function`.
   */
  lemma CallsRecorded(s: TraceState, l: string)
    ensures Lookup(TraceLine(s, l).calls, s.currentFn) ==
            Lookup(s.calls, s.currentFn) +
            (if StartsAsDefinition(l) then [] else KnownOnly(CallNamesFrom(l, 0), s.functions))
  {
    FindCallsAreCallNames(l);
  }

  /** `if (glob.x == 1)` records `x` as accessed and records no assignment. */
  lemma ComparisonIsAccessNotAssignment(s: TraceState, f: string, l: string)
    requires s.currentFn == Some(f)
    requires l == "if (glob.x == 1)"
    ensures "x" in Entries(TraceLine(s, l).access, f)
    ensures TraceLine(s, l).assignments == s.assignments
  {
    ComparisonLine(l);
    AccessRecordsReference(s, l, f, 4);
  }

  lemma ComparisonLine(l: string)
    requires l == "if (glob.x == 1)"
    ensures AssignPattern(l).None?
    ensures GlobRefAt(l, 4) && RefName(l, 4) == "x"
    ensures forall j :: 0 <= j < 4 ==> !GlobRefAt(l, j)
  {
    ComparisonNoAssignment(l);
    ComparisonReference(l);
  }

  lemma ComparisonNoAssignment(l: string)
    requires l == "if (glob.x == 1)"
    ensures AssignPattern(l).None?
  {
    assert |l| == 16 && l[11] == '=' && l[12] == '=';
    assert forall k :: 0 <= k < 11 ==> l[k] != '=';
    EqualityIsNotAssignment(l, 11);
  }

  lemma ComparisonReference(l: string)
    requires l == "if (glob.x == 1)"
    ensures GlobRefAt(l, 4) && RefName(l, 4) == "x"
    ensures forall j :: 0 <= j < 4 ==> !GlobRefAt(l, j)
  {
    assert l[0] == 'i' && l[1] == 'f' && l[2] == ' ';
    assert l[3] == '(' && l[9] == 'x' && l[10] == ' ';
    assert l[4] == 'g' && l[5] == 'l' && l[6] == 'o' && l[7] == 'b' && l[8] == '.';
    assert l[4..9] == "glob.";
    RunEndIs(l, 9, 10, IsIdentChar);
    assert l[9..10] == "x";
  }

  // ---------------------------------------------------------------------
  // What a text does to the trace

  /** The line defines the function `n`. */
  predicate Defines(l: string, n: string)
  {
    DefPattern(l).Some? && DefPattern(l).value.group == n
  }

  /** The names of the functions the lines define. */
  function DefinedIn(lines: seq<string>): set<string>
  {
    set i | 0 <= i < |lines| && DefPattern(lines[i]).Some? :: DefPattern(lines[i]).value.group
  }

  lemma DefinedInSnoc(lines: seq<string>)
    requires lines != []
    ensures var n := |lines| - 1;
            DefinedIn(lines) == DefinedIn(lines[..n]) +
                                (if DefPattern(lines[n]).Some? then {DefPattern(lines[n]).value.group} else {})
  {
    var n := |lines| - 1;
    assert forall i :: 0 <= i < n ==> lines[..n][i] == lines[i];
    DefinedInAre(lines);
    DefinedInAre(lines[..n]);
  }

  /** The names the lines define, one per definition line. */
  lemma DefinedInAre(lines: seq<string>)
    ensures forall n :: n in DefinedIn(lines) <==> exists i :: 0 <= i < |lines| && Defines(lines[i], n)
  {
  }

  /** The trace only ever refers to known functions, and no entry of its maps is empty. */
  predicate Consistent(s: TraceState)
  {
    (s.currentFn.Some? ==> s.currentFn.value in s.functions) &&
    Tidy(s.assignments) && Tidy(s.access) && TidyCalls(s.calls) &&
    (forall f :: f in s.assignments ==> f in s.functions) &&
    (forall f :: f in s.access ==> f in s.functions) &&
    (forall k :: k in s.calls ==> k.None? || k.value in s.functions) &&
    (forall k, c :: k in s.calls && c in s.calls[k] ==> c in s.functions)
  }

  /** What was recorded stays recorded: entries only grow, call lists only get longer. */
  ghost predicate Grows(s: TraceState, r: TraceState)
  {
    (forall f :: Entries(s.assignments, f) <= Entries(r.assignments, f)) &&
    (forall f :: Entries(s.access, f) <= Entries(r.access, f)) &&
    (forall k :: Lookup(s.calls, k) <= Lookup(r.calls, k))
  }

  lemma GrowsTransitive(s1: TraceState, s2: TraceState, s3: TraceState)
    requires Grows(s1, s2) && Grows(s2, s3)
    ensures Grows(s1, s3)
  {
    forall k
      ensures Lookup(s1.calls, k) <= Lookup(s3.calls, k)
    {
      var a, b, c := Lookup(s1.calls, k), Lookup(s2.calls, k), Lookup(s3.calls, k);
      assert b[..|a|] == a && c[..|b|] == b;
      assert c[..|a|] == b[..|a|];
    }
  }

  /** A line keeps the trace consistent when the function it may define is known. */
  lemma TraceLineConsistent(s: TraceState, l: string)
    requires Consistent(s)
    requires DefPattern(l).Some? ==> DefPattern(l).value.group in s.functions
    ensures Consistent(TraceLine(s, l))
    ensures Grows(s, TraceLine(s, l))
  {
    var r := TraceLine(s, l);
    assert forall k, c :: k in r.calls && c in r.calls[k] ==> c in r.functions by {
      TraceLineCallsKnown(s, l);
    }
    assert Grows(s, r) by {
      TraceLineGrows(s, l);
    }
  }

  /** Every call a line records names a known function. */
  lemma TraceLineCallsKnown(s: TraceState, l: string)
    requires forall k, c :: k in s.calls && c in s.calls[k] ==> c in s.functions
    ensures var r := TraceLine(s, l);
      forall k, c :: k in r.calls && c in r.calls[k] ==> c in r.functions
  {
    var r := TraceLine(s, l);
    forall k, c | k in r.calls && c in r.calls[k]
      ensures c in r.functions
    {
      assert r.calls[k] == Lookup(r.calls, k);
      if c !in Lookup(s.calls, k) {
        KnownOnlyKeeps(FindCalls(l, 0), s.functions);
        assert c in KnownOnly(FindCalls(l, 0), s.functions);
      }
    }
  }

  lemma TraceLineGrows(s: TraceState, l: string)
    ensures Grows(s, TraceLine(s, l))
  {
  }

  /** A text keeps the trace consistent when every function it defines is known. */
  lemma {:induction false} TraceLinesConsistent(s: TraceState, lines: seq<string>)
    requires Consistent(s)
    requires DefinedIn(lines) <= s.functions
    ensures Consistent(RunLines(TraceRules(), s, lines).0)
    ensures RunLines(TraceRules(), s, lines).0.functions == s.functions
    ensures Grows(s, RunLines(TraceRules(), s, lines).0)
    decreases |lines|
  {
    if lines != [] {
      var n := |lines| - 1;
      DefinedInSnoc(lines);
      TraceLinesConsistent(s, lines[..n]);
      var before := RunLines(TraceRules(), s, lines[..n]).0;
      var after := TraceLine(before, lines[n]);
      assert RunLines(TraceRules(), s, lines).0 == after;
      TraceLineConsistent(before, lines[n]);
      GrowsTransitive(s, before, after);
    }
  }

  /**
   * Without a cursor, lines that define no function record no assignment and
   * no access, and leave the cursor unset.
   */
  lemma {:induction false} NoCursorRecordsNothing(s: TraceState, lines: seq<string>)
    requires s.currentFn.None?
    requires DefinedIn(lines) == {}
    ensures RunLines(TraceRules(), s, lines).0.currentFn.None?
    ensures RunLines(TraceRules(), s, lines).0.assignments == s.assignments
    ensures RunLines(TraceRules(), s, lines).0.access == s.access
    decreases |lines|
  {
    if lines != [] {
      var n := |lines| - 1;
      DefinedInSnoc(lines);
      NoCursorRecordsNothing(s, lines[..n]);
      var before := RunLines(TraceRules(), s, lines[..n]).0;
      assert RunLines(TraceRules(), s, lines).0 == TraceLine(before, lines[n]);
    }
  }

  // ---------------------------------------------------------------------
  // function_list and trace_flow (scans.py lines 54-66)

  /** A text adds to `ListFunctions.functions` exactly the names its definition lines define. */
  lemma {:induction false} ListLinesAdd(fns: set<string>, lines: seq<string>)
    ensures RunLines(ListRules(), fns, lines).0 == fns + DefinedIn(lines)
    decreases |lines|
  {
    if lines != [] {
      var n := |lines| - 1;
      ListLinesAdd(fns, lines[..n]);
      DefinedInSnoc(lines);
      assert ListRules()[..0] == [];
    }
  }

  /** The names a fresh `ListFunctions` collects from one file. */
  function FileNames(text: string): set<string>
  {
    RunLines(ListRules(), {}, SplitLines(text)).0
  }

  /** One file's names are those its definition lines define. */
  lemma FileNamesAre(text: string)
    ensures FileNames(text) == DefinedIn(SplitLines(text))
  {
    ListLinesAdd({}, SplitLines(text));
  }

  /** The names `function_list` returns for the file contents `fs`: each file run in turn through one `ListFunctions`. */
  function DefinedNames(fs: seq<string>): set<string>
    decreases |fs|
  {
    if fs == [] then {}
    else
      var k := |fs| - 1;
      RunLines(ListRules(), DefinedNames(fs[..k]), SplitLines(fs[k])).0
  }

  lemma DefinedNamesSnoc(fs: seq<string>)
    requires fs != []
    ensures DefinedNames(fs) == DefinedNames(fs[..|fs| - 1]) + FileNames(fs[|fs| - 1])
  {
    var k := |fs| - 1;
    ListLinesAdd(DefinedNames(fs[..k]), SplitLines(fs[k]));
    ListLinesAdd({}, SplitLines(fs[k]));
  }

  /** `function_list` returns exactly the names some file defines. */
  lemma {:induction false} DefinedNamesAre(fs: seq<string>)
    ensures forall n :: n in DefinedNames(fs) <==> exists i :: 0 <= i < |fs| && n in FileNames(fs[i])
    decreases |fs|
  {
    if fs != [] {
      var k := |fs| - 1;
      var prefix := fs[..k];
      var sets := seq(|fs|, i requires 0 <= i < |fs| => FileNames(fs[i]));
      assert forall i :: 0 <= i < |fs| ==> sets[i] == FileNames(fs[i]);
      assert forall n :: n in DefinedNames(prefix) <==> exists i :: 0 <= i < k && n in sets[i] by {
        DefinedNamesAre(prefix);
        forall n | n in DefinedNames(prefix)
          ensures exists i :: 0 <= i < k && n in sets[i]
        {
          var i :| 0 <= i < k && n in FileNames(prefix[i]);
          assert prefix[i] == fs[i];
        }
        forall n, i | 0 <= i < k && n in sets[i]
          ensures n in DefinedNames(prefix)
        {
          assert prefix[i] == fs[i];
        }
      }
      assert DefinedNames(fs) == DefinedNames(prefix) + sets[k] by {
        DefinedNamesSnoc(fs);
      }
      UnionSnoc(DefinedNames(fs), DefinedNames(prefix), sets);
    }
  }

  /** Adding the last set of a list to the union of the others gives the union of them all. */
  lemma UnionSnoc(all: set<string>, prefix: set<string>, sets: seq<set<string>>)
    requires sets != []
    requires all == prefix + sets[|sets| - 1]
    requires forall n :: n in prefix <==> exists i :: 0 <= i < |sets| - 1 && n in sets[i]
    ensures forall n :: n in all <==> exists i :: 0 <= i < |sets| && n in sets[i]
  {
    var k := |sets| - 1;
    forall n | n in all
      ensures exists i :: 0 <= i < |sets| && n in sets[i]
    {
      if n !in prefix {
        assert n in sets[k];
      }
    }
  }

  /** `function_list` of two lists of files is the union of their `function_list`s. */
  lemma DefinedNamesUnion(a: seq<string>, b: seq<string>)
    ensures DefinedNames(a + b) == DefinedNames(a) + DefinedNames(b)
  {
    DefinedNamesAre(a + b);
    DefinedNamesAre(a);
    DefinedNamesAre(b);
    forall n
      ensures n in DefinedNames(a + b) <==> n in DefinedNames(a) + DefinedNames(b)
    {
      if n in DefinedNames(a + b) {
        var i :| 0 <= i < |a + b| && n in FileNames((a + b)[i]);
        if i >= |a| {
          assert (a + b)[i] == b[i - |a|];
        } else {
          assert (a + b)[i] == a[i];
        }
      }
      if n in DefinedNames(a) {
        var i :| 0 <= i < |a| && n in FileNames(a[i]);
        assert (a + b)[i] == a[i];
      }
      if n in DefinedNames(b) {
        var i :| 0 <= i < |b| && n in FileNames(b[i]);
        assert (a + b)[|a| + i] == b[i];
      }
    }
  }

  /** Listing the same files twice adds nothing. */
  lemma DefinedNamesIdempotent(fs: seq<string>)
    ensures DefinedNames(fs + fs) == DefinedNames(fs)
  {
    DefinedNamesUnion(fs, fs);
  }

  /** A fresh `TraceGlobals(functions=known)`. */
  function Initial(known: set<string>): (s: TraceState)
    ensures Consistent(s) && s.functions == known && s.currentFn.None?
  {
    TraceState(known, None, map[], map[], map[])
  }

  /** The trace after running the files `fs` in turn, the cursor reset to `None` before each. */
  function TraceFiles(s: TraceState, fs: seq<string>): TraceState
    decreases |fs|
  {
    if fs == [] then s
    else
      var k := |fs| - 1;
      RunLines(TraceRules(), TraceFiles(s, fs[..k]).(currentFn := None), SplitLines(fs[k])).0
  }

  /**
   * With every function the files define known beforehand, the trace stays
   * consistent (it refers only to known functions), the known names do not
   * change, and the maps accumulate across files.
   */
  lemma {:induction false} TraceFilesConsistent(s: TraceState, fs: seq<string>)
    requires Consistent(s)
    requires forall i :: 0 <= i < |fs| ==> FileNames(fs[i]) <= s.functions
    ensures Consistent(TraceFiles(s, fs))
    ensures TraceFiles(s, fs).functions == s.functions
    ensures Grows(s, TraceFiles(s, fs))
    decreases |fs|
  {
    if fs != [] {
      var k := |fs| - 1;
      assert forall i :: 0 <= i < k ==> fs[..k][i] == fs[i];
      TraceFilesConsistent(s, fs[..k]);
      FileNamesAre(fs[k]);
      var before := TraceFiles(s, fs[..k]);
      var reset := before.(currentFn := None);
      TraceLinesConsistent(reset, SplitLines(fs[k]));
      GrowsTransitive(s, reset, TraceFiles(s, fs));
    }
  }

  /** The trace of a prefix of the files is contained in the trace of all of them. */
  lemma {:induction false} TraceFilesGrow(s: TraceState, fs: seq<string>, j: nat)
    requires j <= |fs|
    requires Consistent(s)
    requires forall i :: 0 <= i < |fs| ==> FileNames(fs[i]) <= s.functions
    ensures Grows(TraceFiles(s, fs[..j]), TraceFiles(s, fs))
    decreases |fs| - j
  {
    if j == |fs| {
      assert fs[..j] == fs;
    } else {
      TraceFilesGrow(s, fs, j + 1);
      var k := |fs[..j + 1]| - 1;
      assert fs[..j + 1][..k] == fs[..j];
      assert forall i :: 0 <= i < j ==> fs[..j][i] == fs[i];
      TraceFilesConsistent(s, fs[..j]);
      FileNamesAre(fs[j]);
      var before := TraceFiles(s, fs[..j]).(currentFn := None);
      TraceLinesConsistent(before, SplitLines(fs[j]));
      GrowsTransitive(TraceFiles(s, fs[..j]), TraceFiles(s, fs[..j + 1]), TraceFiles(s, fs));
    }
  }

  /**
   * The cursor does not carry over from one file to the next: the lines of
   * the last file that come before its first definition record no
   * assignment and no access.
   */
  lemma NoCarryOver(s: TraceState, fs: seq<string>)
    requires fs != []
    requires FileNames(fs[|fs| - 1]) == {}
    ensures TraceFiles(s, fs).assignments == TraceFiles(s, fs[..|fs| - 1]).assignments
    ensures TraceFiles(s, fs).access == TraceFiles(s, fs[..|fs| - 1]).access
  {
    var k := |fs| - 1;
    FileNamesAre(fs[k]);
    NoCursorRecordsNothing(TraceFiles(s, fs[..k]).(currentFn := None), SplitLines(fs[k]));
  }

  /**
   * The reset before each file: the lines of the last file that come before
   * its first definition leave the cursor unset and record no assignment and
   * no access; the file's effect is that of its remaining lines alone.
   */
  lemma LeadingLinesRecordNothing(s: TraceState, fs: seq<string>, pre: seq<string>, rest: seq<string>)
    requires fs != [] && SplitLines(fs[|fs| - 1]) == pre + rest
    requires DefinedIn(pre) == {}
    ensures var prev := TraceFiles(s, fs[..|fs| - 1]);
      var mid := RunLines(TraceRules(), prev.(currentFn := None), pre).0;
      mid.currentFn.None? && mid.assignments == prev.assignments && mid.access == prev.access &&
      TraceFiles(s, fs) == RunLines(TraceRules(), mid, rest).0
  {
    var prev := TraceFiles(s, fs[..|fs| - 1]);
    NoCursorRecordsNothing(prev.(currentFn := None), pre);
    RunLinesAppend(TraceRules(), prev.(currentFn := None), pre, rest);
  }

  /** All four `TraceGlobals` rules keep their line, so `run` repeats each line four times. */
  lemma TraceRulesKeepLines()
    ensures forall i :: 0 <= i < |TraceRules()| ==> KeepsLine(TraceRules()[i])
  {
    assert KeepsLine(Rule(CallPattern, CallGraphHandler));
    assert KeepsLine(Rule(AccessPattern, GlobAccessHandler));
    assert KeepsLine(Rule(AssignPattern, GlobAssignHandler));
    assert KeepsLine(Rule(DefPattern, OpenFunctionHandler));
  }

  lemma ListRulesKeepLines()
    ensures forall i :: 0 <= i < |ListRules()| ==> KeepsLine(ListRules()[i])
  {
    assert KeepsLine(Rule(DefPattern, ListOpenFunctionHandler));
  }

  // ---------------------------------------------------------------------
  // The two classes

  /** `ListFunctions`: the names of the functions seen so far. */
  class ListFunctions {
    var functions: set<string>

    constructor ()
      ensures functions == {}
    {
      functions := {};
    }

    /** `open_function`, updating the field in place. */
    method OpenFunction(m: Match)
      modifies this
      ensures functions == ListOpenFunctionHandler(old(functions), m).0
    {
      functions := functions + {m.group};
    }

    /** `run`: the names the text defines join `functions`; each line comes back once. */
    method Run(inp: string) returns (out: string)
      modifies this
      ensures functions == old(functions) + DefinedIn(SplitLines(inp))
      ensures out == Join(SplitLines(inp))
    {
      var fns;
      fns, out := RunRuleSet(ListAttrs(), functions, inp);
      ListDispatchRules();
      ListLinesAdd(functions, SplitLines(inp));
      ListRulesKeepLines();
      KeepingRulesRepeatLines(ListRules(), functions, SplitLines(inp));
      RepeatEachOnce(SplitLines(inp));
      functions := fns;
    }
  }

  /** `TraceGlobals`: the cursor and the three accumulators, updated in place. */
  class TraceGlobals {
    var functions: set<string>
    var currentFn: Option<string>
    var assignments: map<string, set<string>>
    var access: map<string, set<string>>
    var calls: map<Option<string>, seq<string>>

    /** The fields as one value. */
    function State(): TraceState
      reads this
    {
      TraceState(functions, currentFn, assignments, access, calls)
    }

    /** `TraceGlobals(functions=known)`: no cursor, empty maps. */
    constructor (known: set<string>)
      ensures State() == Initial(known)
    {
      functions, currentFn := known, None;
      assignments, access, calls := map[], map[], map[];
    }

    /** `open_function`, in place. */
    method OpenFunction(m: Match)
      modifies this
      ensures State() == OpenFunctionHandler(old(State()), m).0
    {
      currentFn := Some(m.group);
    }

    /** `glob_assign`, in place. */
    method GlobAssign(m: Match)
      modifies this
      ensures State() == GlobAssignHandler(old(State()), m).0
    {
      if currentFn.None? {
        return;
      }
      var f := currentFn.value;
      assignments := assignments[f := Entries(assignments, f) + {m.group}];
    }

    /** `glob_access`, in place: one `add` per reference `findall` finds. */
    method GlobAccess(m: Match)
      modifies this
      ensures State() == GlobAccessHandler(old(State()), m).0
    {
      if currentFn.None? {
        return;
      }
      var f := currentFn.value;
      var subs := FindGlobRefs(m.whole, 0);
      for i := 0 to |subs|
        invariant State() == old(State()).(access := Record(old(access), f, Elements(subs[..i])))
      {
        RecordOneMore(old(access), f, Elements(subs[..i]), subs[i]);
        assert Elements(subs[..i + 1]) == Elements(subs[..i]) + {subs[i]} by {
          assert subs[..i + 1] == subs[..i] + [subs[i]];
        }
        access := access[f := Entries(access, f) + {subs[i]}];
      }
      assert subs[..|subs|] == subs;
    }

    /** `call_graph`, in place: one `append` per known callee `findall` finds, under the cursor as it is. */
    method CallGraph(m: Match)
      modifies this
      ensures State() == CallGraphHandler(old(State()), m).0
    {
      var subs := FindCalls(m.whole, 0);
      for i := 0 to |subs|
        invariant State() == old(State()).(calls := Extend(old(calls), currentFn, KnownOnly(subs[..i], functions)))
      {
        assert subs[..i + 1][..i] == subs[..i];
        ExtendTwice(old(calls), currentFn, KnownOnly(subs[..i], functions), if subs[i] in functions then [subs[i]] else []);
        if subs[i] in functions {
          calls := calls[currentFn := Lookup(calls, currentFn) + [subs[i]]];
        }
      }
      assert subs[..|subs|] == subs;
    }

    /** `run`: every line through the four rules in `dir()` order; each line comes back four times. */
    method Run(inp: string) returns (out: string)
      modifies this
      ensures State() == RunLines(TraceRules(), old(State()), SplitLines(inp)).0
      ensures out == Join(RepeatEach(SplitLines(inp), 4))
    {
      var s0 := State();
      var s;
      s, out := RunRuleSet(TraceAttrs(), s0, inp);
      TraceRun(s0, inp);
      SetState(s);
    }

    /** Write a whole state back into the fields. */
    method SetState(s: TraceState)
      modifies this
      ensures State() == s
    {
      functions, currentFn := s.functions, s.currentFn;
      assignments, access, calls := s.assignments, s.access, s.calls;
    }
  }

  /** The rules `TraceGlobals.run` dispatches are the four rules, and they keep every line. */
  lemma TraceRun(s0: TraceState, inp: string)
    ensures RunLines(DispatchRules(TraceAttrs()), s0, SplitLines(inp)).0 == RunLines(TraceRules(), s0, SplitLines(inp)).0
    ensures RunLines(DispatchRules(TraceAttrs()), s0, SplitLines(inp)).1 == RepeatEach(SplitLines(inp), 4)
  {
    TraceDispatchRules();
    TraceRulesKeepLines();
    KeepingRulesRepeatLines(TraceRules(), s0, SplitLines(inp));
  }

  lemma RecordOneMore(d: map<string, set<string>>, f: string, vs: set<string>, v: string)
    ensures Record(d, f, vs + {v}) == Record(d, f, vs)[f := Entries(Record(d, f, vs), f) + {v}]
  {
    assert Entries(d, f) + (vs + {v}) == Entries(d, f) + vs + {v};
    if vs == {} {
      assert vs + {v} == {v};
    }
  }

  /** `function_list`: one `ListFunctions` run over every file in turn. */
  method FunctionList(fs: seq<string>) returns (names: set<string>)
    ensures names == DefinedNames(fs)
  {
    var l := new ListFunctions();
    for i := 0 to |fs|
      invariant l.functions == DefinedNames(fs[..i])
    {
      var _ := l.Run(fs[i]);
      assert fs[..i + 1][..i] == fs[..i];
      ListLinesAdd(DefinedNames(fs[..i]), SplitLines(fs[i]));
    }
    assert fs[..|fs|] == fs;
    names := l.functions;
  }

  /**
   * `trace_flow`: a `TraceGlobals` that knows the names `function_list`
   * returns runs every file in turn, the cursor reset before each file.
   */
  method TraceFlow(fs: seq<string>) returns (t: TraceGlobals)
    ensures fresh(t)
    ensures t.State() == TraceFiles(Initial(DefinedNames(fs)), fs)
  {
    var known := FunctionList(fs);
    t := new TraceGlobals(known);
    for i := 0 to |fs|
      invariant t.State() == TraceFiles(Initial(known), fs[..i])
    {
      assert fs[..i + 1][..i] == fs[..i];
      t.currentFn := None;
      var _ := t.Run(fs[i]);
    }
    assert fs[..|fs|] == fs;
  }

  /**
   * What `trace_flow` returns refers only to functions `function_list`
   * found, and its maps hold every file's records: the trace of any prefix
   * of the files is contained in it.
   */
  lemma TraceFlowConsistent(fs: seq<string>, j: nat)
    requires j <= |fs|
    ensures Consistent(TraceFiles(Initial(DefinedNames(fs)), fs))
    ensures TraceFiles(Initial(DefinedNames(fs)), fs).functions == DefinedNames(fs)
    ensures Grows(TraceFiles(Initial(DefinedNames(fs)), fs[..j]), TraceFiles(Initial(DefinedNames(fs)), fs))
  {
    DefinedNamesAre(fs);
    TraceFilesConsistent(Initial(DefinedNames(fs)), fs);
    TraceFilesGrow(Initial(DefinedNames(fs)), fs, j);
  }
}
