/**
 * The line-oriented rule engine of code_analysis/mawk.py.
 *
 * A rule is a pattern anchored at the start of a line together with a
 * handler. Handlers of a rule set change the state of the object that owns
 * them; here that state is a value of type S which the engine threads from
 * one rule application to the next, in the order Python would run them.
 */
module Mawk {
  import opened Wrappers
  import Order

  /** What a handler returns: `None` (keep the line) or an explicit list of lines. */
  datatype Handled = NoOutput | Output(lines: seq<string>)

  /** The parts of a successful `re.match` that handlers read: `m[0]` and `m[1]`. */
  datatype Match = Match(whole: string, group: string)

  /** An `on_match` rule bound to its owner: pattern plus handler over the owner's state. */
  datatype Rule<!S> = Rule(pattern: string -> Option<Match>, handler: (S, Match) -> (S, Handled))

  /**
   * `match_filter`: the three-way contract. No match keeps the line and does
   * not run the handler; a handler answering `None` keeps the line; a handler
   * answering a list replaces the line by that list, the empty list erasing it.
   */
  function MatchFilter<S>(rule: Rule<S>, s: S, inp: string): (r: (S, seq<string>))
    ensures rule.pattern(inp).None? ==> r.0 == s && r.1 == [inp]
    ensures rule.pattern(inp).Some? ==>
      var (s', h) := rule.handler(s, rule.pattern(inp).value);
      r.0 == s' && r.1 == (if h.NoOutput? then [inp] else h.lines)
    ensures r.1 == [] <==>
      rule.pattern(inp).Some? && rule.handler(s, rule.pattern(inp).value).1 == Output([])
  {
    match rule.pattern(inp)
    case None => (s, [inp])
    case Some(m) =>
      var (s', h) := rule.handler(s, m);
      match h
      case NoOutput => (s', [inp])
      case Output(lines) => (s', lines)
  }

  /** All rules applied in list order to the same line `l`; outputs concatenated. */
  function ApplyRules<S>(rules: seq<Rule<S>>, s: S, l: string): (S, seq<string>)
    decreases |rules|
  {
    if rules == [] then (s, [])
    else
      var before := ApplyRules(rules[..|rules| - 1], s, l);
      var last := MatchFilter(rules[|rules| - 1], before.0, l);
      (last.0, before.1 + last.1)
  }

  /** Line-major, rule-minor: every line in order, and for each line every rule. */
  function RunLines<S>(rules: seq<Rule<S>>, s: S, lines: seq<string>): (S, seq<string>)
    decreases |lines|
  {
    if lines == [] then (s, [])
    else
      var before := RunLines(rules, s, lines[..|lines| - 1]);
      var last := ApplyRules(rules, before.0, lines[|lines| - 1]);
      (last.0, before.1 + last.1)
  }

  /** Index of the first `'\n'` in `t`, or `|t|`. */
  function NewlineIndex(t: string): (k: nat)
    ensures k <= |t|
    ensures '\n' !in t[..k]
    ensures k < |t| ==> t[k] == '\n'
  {
    if t == [] || t[0] == '\n' then 0
    else
      var k := NewlineIndex(t[1..]);
      assert t[..k + 1] == [t[0]] + t[1..][..k];
      k + 1
  }

  /**
   * `str.splitlines()` restricted to `'\n'`: the pieces between newlines,
   * where a final newline does not start an extra empty line.
   */
  function SplitLines(t: string): (lines: seq<string>)
    ensures forall i :: 0 <= i < |lines| ==> '\n' !in lines[i]
    ensures t == [] <==> lines == []
    decreases |t|
  {
    if t == [] then []
    else
      var k := NewlineIndex(t);
      if k == |t| then [t] else [t[..k]] + SplitLines(t[k + 1..])
  }

  /** `"\n".join(lines)`. */
  function Join(lines: seq<string>): string
    decreases |lines|
  {
    if lines == [] then ""
    else if |lines| == 1 then lines[0]
    else lines[0] + "\n" + Join(lines[1..])
  }

  /** Joining the lines of a text gives the text back, unless it ended in a newline. */
  lemma {:induction false} JoinSplitLines(t: string)
    requires t == [] || t[|t| - 1] != '\n'
    ensures Join(SplitLines(t)) == t
    decreases |t|
  {
    if t != [] {
      var k := NewlineIndex(t);
      if k < |t| {
        var rest := t[k + 1..];
        assert rest != [] by { assert t[k] == '\n'; }
        JoinSplitLines(rest);
        assert t == t[..k] + "\n" + rest;
      }
    }
  }

  /**
   * A text ending in a newline: the final newline ends the last line and
   * does not start an empty one, so joining the lines gives the text back
   * without that newline.
   */
  lemma {:induction false} SplitLinesTrailing(t: string)
    requires t != [] && t[|t| - 1] == '\n'
    ensures Join(SplitLines(t)) + "\n" == t
    decreases |t|
  {
    var k := NewlineIndex(t);
    var line, rest := t[..k], t[k + 1..];
    assert t == line + "\n" + rest;
    SplitLinesCons(line, rest);
    if rest != [] {
      SplitLinesTrailing(rest);
      JoinCons(line, SplitLines(rest));
    }
  }

  lemma JoinCons(a: string, lines: seq<string>)
    requires lines != []
    ensures Join([a] + lines) == a + "\n" + Join(lines)
  {
    assert ([a] + lines)[1..] == lines;
  }

  /** Splitting the join of newline-free lines gives them back, unless the last one is empty. */
  lemma {:induction false} SplitLinesJoin(lines: seq<string>)
    requires forall i :: 0 <= i < |lines| ==> '\n' !in lines[i]
    requires lines == [] || lines[|lines| - 1] != ""
    ensures SplitLines(Join(lines)) == lines
    decreases |lines|
  {
    if |lines| == 1 {
      NewlineIndexAbsent(lines[0]);
    } else if |lines| > 1 {
      assert Join(lines) == lines[0] + "\n" + Join(lines[1..]);
      SplitLinesCons(lines[0], Join(lines[1..]));
      SplitLinesJoin(lines[1..]);
      assert lines == [lines[0]] + lines[1..];
    }
  }

  lemma SplitLinesCons(a: string, b: string)
    requires '\n' !in a
    ensures SplitLines(a + "\n" + b) == [a] + SplitLines(b)
  {
    var t := a + "\n" + b;
    NewlineIndexAt(a, b);
    assert t[..|a|] == a;
    assert t[|a| + 1..] == b;
  }

  lemma {:induction false} NewlineIndexAbsent(t: string)
    requires '\n' !in t
    ensures NewlineIndex(t) == |t|
    decreases |t|
  {
    if t != [] {
      assert '\n' !in t[1..] by {
        forall c | c in t[1..] ensures c != '\n' { assert c in t; }
      }
      NewlineIndexAbsent(t[1..]);
    }
  }

  lemma {:induction false} NewlineIndexAt(a: string, b: string)
    requires '\n' !in a
    ensures NewlineIndex(a + "\n" + b) == |a|
    decreases |a|
  {
    var t := a + "\n" + b;
    if a != [] {
      assert t[1..] == a[1..] + "\n" + b;
      assert '\n' !in a[1..] by {
        forall c | c in a[1..] ensures c != '\n' { assert c in a; }
      }
      NewlineIndexAt(a[1..], b);
    }
  }

  /**
   * Rules are not chained: splitting the rule list anywhere, the second part
   * still receives the original line `l`, not the first part's output.
   */
  lemma {:induction false} ApplyRulesSplit<S>(rules: seq<Rule<S>>, k: nat, s: S, l: string)
    requires k <= |rules|
    ensures var first := ApplyRules(rules[..k], s, l);
            var second := ApplyRules(rules[k..], first.0, l);
            ApplyRules(rules, s, l).0 == second.0 && ApplyRules(rules, s, l).1 == first.1 + second.1
    decreases |rules|
  {
    if k == |rules| {
      assert rules[..k] == rules;
      assert rules[k..] == [];
    } else {
      var n := |rules| - 1;
      var tail := rules[k..];
      var first := ApplyRules(rules[..k], s, l);
      var before := ApplyRules(rules[..n], s, l);
      var middle := ApplyRules(rules[..n][k..], first.0, l);
      assert before.0 == middle.0 && before.1 == first.1 + middle.1 by {
        ApplyRulesSplit(rules[..n], k, s, l);
        assert rules[..n][..k] == rules[..k];
      }
      var last := MatchFilter(rules[n], middle.0, l);
      assert ApplyRules(tail, first.0, l) == (last.0, middle.1 + last.1) by {
        assert tail[..|tail| - 1] == rules[..n][k..];
        assert tail[|tail| - 1] == rules[n];
      }
      assert first.1 + middle.1 + last.1 == first.1 + (middle.1 + last.1);
    }
  }

  /** The lines of `a + b` are run as the lines of `a` and then those of `b`. */
  lemma {:induction false} RunLinesAppend<S>(rules: seq<Rule<S>>, s: S, a: seq<string>, b: seq<string>)
    ensures var first := RunLines(rules, s, a);
            var second := RunLines(rules, first.0, b);
            RunLines(rules, s, a + b).0 == second.0 && RunLines(rules, s, a + b).1 == first.1 + second.1
    decreases |b|
  {
    if b == [] {
      assert a + b == a;
    } else {
      var n := |b| - 1;
      RunLinesAppend(rules, s, a, b[..n]);
      assert (a + b)[..|a + b| - 1] == a + b[..n];
      assert (a + b)[|a + b| - 1] == b[n];
      var first := RunLines(rules, s, a);
      var middle := RunLines(rules, first.0, b[..n]);
      var last := ApplyRules(rules, middle.0, b[n]);
      assert first.1 + middle.1 + last.1 == first.1 + (middle.1 + last.1);
    }
  }

  /** With no rules every line produces nothing and nothing changes: the result is `""`. */
  lemma {:induction false} RunWithoutRules<S>(s: S, lines: seq<string>)
    ensures RunLines([], s, lines).0 == s && RunLines([], s, lines).1 == []
    ensures Join(RunLines([], s, lines).1) == ""
    decreases |lines|
  {
    if lines != [] {
      var none: seq<Rule<S>> := [];
      RunWithoutRules(s, lines[..|lines| - 1]);
      assert ApplyRules(none, s, lines[|lines| - 1]).1 == [];
    }
  }

  /** The rule's handler answers `None` whatever the state and the match. */
  ghost predicate KeepsLine<S(!new)>(rule: Rule<S>)
  {
    forall s: S, m: Match :: rule.handler(s, m).1 == NoOutput
  }

  /** `l` repeated `k` times. */
  function Repeat(l: string, k: nat): (r: seq<string>)
    ensures |r| == k && forall i :: 0 <= i < k ==> r[i] == l
  {
    seq(k, _ => l)
  }

  /** Each line repeated `k` times in a row, lines in order. */
  function RepeatEach(lines: seq<string>, k: nat): seq<string>
    decreases |lines|
  {
    if lines == [] then []
    else RepeatEach(lines[..|lines| - 1], k) + Repeat(lines[|lines| - 1], k)
  }

  /** Repeating each line once gives the lines back. */
  lemma {:induction false} RepeatEachOnce(lines: seq<string>)
    ensures RepeatEach(lines, 1) == lines
    decreases |lines|
  {
    if lines != [] {
      var n := |lines| - 1;
      RepeatEachOnce(lines[..n]);
      assert lines == lines[..n] + [lines[n]];
    }
  }

  /** With `k` rules that only observe, each input line appears `k` times consecutively. */
  lemma {:induction false} KeepingRulesRepeatLines<S(!new)>(rules: seq<Rule<S>>, s: S, lines: seq<string>)
    requires forall i :: 0 <= i < |rules| ==> KeepsLine(rules[i])
    ensures RunLines(rules, s, lines).1 == RepeatEach(lines, |rules|)
    decreases |lines|
  {
    if lines != [] {
      var n := |lines| - 1;
      KeepingRulesRepeatLines(rules, s, lines[..n]);
      KeepingRulesRepeatLine(rules, RunLines(rules, s, lines[..n]).0, lines[n]);
    }
  }

  lemma {:induction false} KeepingRulesRepeatLine<S(!new)>(rules: seq<Rule<S>>, s: S, l: string)
    requires forall i :: 0 <= i < |rules| ==> KeepsLine(rules[i])
    ensures ApplyRules(rules, s, l).1 == Repeat(l, |rules|)
    decreases |rules|
  {
    if rules != [] {
      var n := |rules| - 1;
      KeepingRulesRepeatLine(rules[..n], s, l);
      var s1 := ApplyRules(rules[..n], s, l).0;
      var r := rules[n];
      assert KeepsLine(r);
      match r.pattern(l)
      case None =>
      case Some(m) =>
        assert r.handler(s1, m).1 == NoOutput;
    }
  }

  /** An attribute of a rule-set object: an `on_match` method (it carries `_is_rule`) or anything else. */
  datatype Attr<!S> = Tagged(rule: Rule<S>) | Untagged

  /** `RuleSet.run` dispatches the attribute `name`: public and tagged. */
  predicate Dispatched<S>(attrs: map<string, Attr<S>>, name: string)
  {
    name in attrs && name != "" && name[0] != '_' && attrs[name].Tagged?
  }

  /** The dispatched names among `names`, in the order of `names`. */
  function KeepDispatched<S>(attrs: map<string, Attr<S>>, names: seq<string>): (kept: seq<string>)
    ensures forall n :: n in kept <==> n in names && Dispatched(attrs, n)
    ensures Order.StrictlySorted(names) ==> Order.StrictlySorted(kept)
    decreases |names|
  {
    if names == [] then []
    else
      var rest := KeepDispatched(attrs, names[1..]);
      assert Order.StrictlySorted(names) ==> forall j :: 0 <= j < |rest| ==> Order.Less(names[0], rest[j]) by {
        if Order.StrictlySorted(names) {
          forall j | 0 <= j < |rest| ensures Order.Less(names[0], rest[j]) {
            assert rest[j] in names[1..];
            var i :| 1 <= i < |names| && names[i] == rest[j];
          }
        }
      }
      (if Dispatched(attrs, names[0]) then [names[0]] else []) + rest
  }

  /**
   * The names `RuleSet.run` dispatches: exactly the public tagged attributes,
   * in the alphabetical order of `dir()`.
   */
  function DispatchNames<S>(attrs: map<string, Attr<S>>): (names: seq<string>)
    requires "" !in attrs
    ensures Order.StrictlySorted(names)
    ensures forall n :: n in names <==> Dispatched(attrs, n)
  {
    KeepDispatched(attrs, Order.SortSet(attrs.Keys))
  }

  /** The rules of the named attributes, in the same order. */
  function RulesNamed<S>(attrs: map<string, Attr<S>>, names: seq<string>): (rules: seq<Rule<S>>)
    requires forall i :: 0 <= i < |names| ==> names[i] in attrs && attrs[names[i]].Tagged?
    ensures |rules| == |names|
    ensures forall i :: 0 <= i < |names| ==> rules[i] == attrs[names[i]].rule
    decreases |names|
  {
    if names == [] then []
    else
      [attrs[names[0]].rule] + RulesNamed(attrs, names[1..])
  }

  /** The rule list `RuleSet.run` hands to `run`. */
  function DispatchRules<S>(attrs: map<string, Attr<S>>): seq<Rule<S>>
    requires "" !in attrs
  {
    RulesNamed(attrs, DispatchNames(attrs))
  }

  /** A strictly sorted list of exactly the dispatched names is the dispatch order. */
  lemma DispatchOrder<S>(attrs: map<string, Attr<S>>, names: seq<string>)
    requires "" !in attrs
    requires Order.StrictlySorted(names)
    requires forall n :: n in names <==> Dispatched(attrs, n)
    ensures DispatchNames(attrs) == names
  {
    Order.SortedUnique(DispatchNames(attrs), names);
  }

  method Run<S>(rules: seq<Rule<S>>, s0: S, inp: string) returns (s: S, out: string)
    ensures s == RunLines(rules, s0, SplitLines(inp)).0
    ensures out == Join(RunLines(rules, s0, SplitLines(inp)).1)
  {
    var lines := SplitLines(inp);
    var result: seq<string> := [];
    s := s0;
    for i := 0 to |lines|
      invariant s == RunLines(rules, s0, lines[..i]).0
      invariant result == RunLines(rules, s0, lines[..i]).1
    {
      var l := lines[i];
      ghost var lineStart, resultStart := s, result;
      for j := 0 to |rules|
        invariant s == ApplyRules(rules[..j], lineStart, l).0
        invariant result == resultStart + ApplyRules(rules[..j], lineStart, l).1
      {
        var step := MatchFilter(rules[j], s, l);
        s := step.0;
        assert rules[..j + 1][..j] == rules[..j];
        result := result + step.1;
      }
      assert rules[..|rules|] == rules;
      assert lines[..i + 1][..i] == lines[..i];
    }
    assert lines[..|lines|] == lines;
    out := Join(result);
  }

  /** `RuleSet.run`: the public tagged attributes, in `dir()` order, handed to `run`. */
  method RunRuleSet<S>(attrs: map<string, Attr<S>>, s0: S, inp: string) returns (s: S, out: string)
    requires "" !in attrs
    ensures s == RunLines(DispatchRules(attrs), s0, SplitLines(inp)).0
    ensures out == Join(RunLines(DispatchRules(attrs), s0, SplitLines(inp)).1)
  {
    var rules := DispatchRules(attrs);
    s, out := Run(rules, s0, inp);
  }
}
