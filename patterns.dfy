/**
 * The five regular expressions of code_analysis/scans.py, written out as
 * recognizers over a line with the semantics of Python's `re.match`
 * (anchored at column 0, need not reach the end of the line, greedy with
 * backtracking), and the two `re.findall` scans the handlers loop over.
 *
 * Lines never contain '\n' (the engine splits on it), so the behaviour of
 * `.` and `$` at a newline does not arise.
 *
 * Greedy backtracking: a leading `.*` or `[^=%]*` first takes as much of the
 * line as it can and gives it back one character at a time, so the match
 * that wins is the one whose later part starts furthest to the right.
 * The `Last...` functions below are that search.
 */
module Patterns {
  import opened Wrappers
  import opened Mawk

  /** `[a-zA-Z]` */
  predicate IsLetter(c: char)
  {
    'a' <= c <= 'z' || 'A' <= c <= 'Z'
  }

  /** `[a-zA-Z_]` */
  predicate IsIdentChar(c: char)
  {
    IsLetter(c) || c == '_'
  }

  /** `s` holds the word `w` at position `i`. */
  predicate HasAt(s: string, i: nat, w: string)
  {
    i + |w| <= |s| && s[i..i + |w|] == w
  }

  /** End of the longest run of characters of a class starting at `i` (a greedy `[...]*`). */
  function RunEnd(s: string, i: nat, inClass: char -> bool): (e: nat)
    requires i <= |s|
    ensures i <= e <= |s|
    ensures forall k :: i <= k < e ==> inClass(s[k])
    ensures e == |s| || !inClass(s[e])
    decreases |s| - i
  {
    if i < |s| && inClass(s[i]) then RunEnd(s, i + 1, inClass) else i
  }

  /** The last position of `c` in `s`, or -1. */
  function LastIndex(s: string, c: char): (r: int)
    ensures -1 <= r < |s|
    ensures r >= 0 ==> s[r] == c
    ensures forall k :: r < k < |s| ==> s[k] != c
    decreases |s|
  {
    if s == [] then -1
    else if s[|s| - 1] == c then |s| - 1
    else LastIndex(s[..|s| - 1], c)
  }

  // ---------------------------------------------------------------------
  // `function.* ([a-zA-Z_]+)\(glob,.*\)`  (scans.py lines 14 and 28)

  /** The identifier that starts right after position `p`. */
  function NameAfter(line: string, p: nat): string
    requires p < |line|
  {
    line[p + 1..RunEnd(line, p + 1, IsIdentChar)]
  }

  /**
   * The definition pattern can succeed with the space before the name at `p`:
   * `function` (8 characters), anything, a space, an identifier, `(glob,`,
   * and a `)` somewhere after that.
   */
  predicate DefAt(line: string, p: nat)
  {
    8 <= p < |line| && line[p] == ' ' &&
    var e := RunEnd(line, p + 1, IsIdentChar);
    e > p + 1 && HasAt(line, e, "(glob,") && ')' in line[e + 6..]
  }

  /** The rightmost position up to `hi` where the definition pattern can succeed. */
  function LastDefAt(line: string, hi: int): (r: Option<nat>)
    ensures r.Some? ==> r.value <= hi && DefAt(line, r.value)
    ensures forall q: nat :: q <= hi && (r.None? || r.value < q) ==> !DefAt(line, q)
    decreases hi
  {
    if hi < 8 then None
    else if DefAt(line, hi) then Some(hi)
    else LastDefAt(line, hi - 1)
  }

  /** `re.match` of the definition pattern; the group is the function name. */
  function DefPattern(line: string): (m: Option<Match>)
    ensures m.Some? <==> HasAt(line, 0, "function") && exists p :: DefAt(line, p)
    ensures m.Some? ==> exists p ::
      DefAt(line, p) && m.value.group == NameAfter(line, p) &&
      forall q :: DefAt(line, q) ==> q <= p
  {
    if !HasAt(line, 0, "function") then None
    else
      match LastDefAt(line, |line| - 1)
      case None => None
      case Some(p) =>
        var close := LastIndex(line, ')');
        Some(Match(line[..close + 1], NameAfter(line, p)))
  }

  // ---------------------------------------------------------------------
  // `^[^=%]*glob\.([a-zA-Z]+)[^=<>;]*=(?!=).*`  (scans.py line 33)

  /** First index at or after `i` holding one of `=<>;`, or `|s|`. */
  function StopIndex(s: string, i: nat): (k: nat)
    requires i <= |s|
    ensures i <= k <= |s|
    ensures forall j :: i <= j < k ==> s[j] !in "=<>;"
    ensures k < |s| ==> s[k] in "=<>;"
    decreases |s| - i
  {
    if i == |s| || s[i] in "=<>;" then i else StopIndex(s, i + 1)
  }

  /**
   * The assignment pattern can succeed with `glob.` at `i`: nothing before it
   * is `=` or `%`; one or more letters follow (no `_`); then characters other
   * than `=<>;` up to an `=` that is not followed by another `=`.
   */
  predicate AssignAt(line: string, i: nat)
  {
    HasAt(line, i, "glob.") &&
    (forall k :: 0 <= k < i ==> line[k] != '=' && line[k] != '%') &&
    var j := RunEnd(line, i + 5, IsLetter);
    j > i + 5 &&
    var k := StopIndex(line, j);
    k < |line| && line[k] == '=' && (k + 1 == |line| || line[k + 1] != '=')
  }

  /** The letters after the `glob.` at `i`: what the assignment pattern captures. */
  function AssignedName(line: string, i: nat): string
    requires i + 5 <= |line|
  {
    line[i + 5..RunEnd(line, i + 5, IsLetter)]
  }

  /** The rightmost position up to `hi` where the assignment pattern can succeed. */
  function LastAssignAt(line: string, hi: int): (r: Option<nat>)
    ensures r.Some? ==> r.value <= hi && AssignAt(line, r.value)
    ensures forall q: nat :: q <= hi && (r.None? || r.value < q) ==> !AssignAt(line, q)
    decreases hi
  {
    if hi < 0 then None
    else if AssignAt(line, hi) then Some(hi)
    else LastAssignAt(line, hi - 1)
  }

  /** `re.match` of the assignment pattern; the group is the assigned variable. */
  function AssignPattern(line: string): (m: Option<Match>)
    ensures m.Some? <==> exists i :: AssignAt(line, i)
    ensures m.Some? ==> exists i ::
      AssignAt(line, i) && m.value.group == AssignedName(line, i) &&
      forall q :: AssignAt(line, q) ==> q <= i
  {
    match LastAssignAt(line, |line|)
    case None => None
    case Some(i) => Some(Match(line, AssignedName(line, i)))
  }

  // ---------------------------------------------------------------------
  // `^.*glob\.([a-zA-Z_]+).*$` and `glob\.([a-zA-Z_]+)`  (scans.py lines 39 and 44)

  /** `glob.` at `i` followed by at least one identifier character. */
  predicate GlobRefAt(line: string, i: nat)
  {
    HasAt(line, i, "glob.") && i + 5 < |line| && IsIdentChar(line[i + 5])
  }

  /** The identifier after the `glob.` at `i`. */
  function RefName(line: string, i: nat): string
    requires i + 5 <= |line|
  {
    line[i + 5..RunEnd(line, i + 5, IsIdentChar)]
  }

  /** The rightmost position up to `hi` holding a `glob.` reference. */
  function LastGlobRef(line: string, hi: int): (r: Option<nat>)
    ensures r.Some? ==> r.value <= hi && GlobRefAt(line, r.value)
    ensures forall q: nat :: q <= hi && (r.None? || r.value < q) ==> !GlobRefAt(line, q)
    decreases hi
  {
    if hi < 0 then None
    else if GlobRefAt(line, hi) then Some(hi)
    else LastGlobRef(line, hi - 1)
  }

  /** `re.match` of the access pattern: `m[0]` is the whole line. */
  function AccessPattern(line: string): (m: Option<Match>)
    ensures m.Some? <==> exists i :: GlobRefAt(line, i)
    ensures m.Some? ==> m.value.whole == line
  {
    match LastGlobRef(line, |line|)
    case None => None
    case Some(i) => Some(Match(line, RefName(line, i)))
  }

  /**
   * `re.findall(r"glob\.([a-zA-Z_]+)", line[pos..])`: scanning left to right,
   * each match is taken whole and the scan resumes after it.
   */
  function FindGlobRefs(line: string, pos: nat): (names: seq<string>)
    requires pos <= |line|
    ensures forall n :: n in names ==> exists i :: pos <= i && GlobRefAt(line, i) && n == RefName(line, i)
    decreases |line| - pos
  {
    if pos == |line| then []
    else if GlobRefAt(line, pos) then
      [RefName(line, pos)] + FindGlobRefs(line, RunEnd(line, pos + 5, IsIdentChar))
    else FindGlobRefs(line, pos + 1)
  }

  // ---------------------------------------------------------------------
  // `^(?! *function).*([a-zA-Z_]+)\(.*$` and `([a-zA-Z_]+)\(`  (scans.py lines 47 and 49)

  /** Number of leading spaces. */
  function LeadingSpaces(line: string): (n: nat)
    ensures n <= |line|
    ensures forall k :: 0 <= k < n ==> line[k] == ' '
    ensures n == |line| || line[n] != ' '
  {
    RunEnd(line, 0, c => c == ' ')
  }

  /** The negative lookahead: spaces (none or more) and then `function`. */
  predicate StartsAsDefinition(line: string)
  {
    HasAt(line, LeadingSpaces(line), "function")
  }

  /** A `(` at `q` right after an identifier character. */
  predicate CallParenAt(line: string, q: nat)
  {
    0 < q < |line| && line[q] == '(' && IsIdentChar(line[q - 1])
  }

  /** The rightmost call parenthesis up to `hi`. */
  function LastCallParen(line: string, hi: int): (r: Option<nat>)
    ensures r.Some? ==> r.value <= hi && CallParenAt(line, r.value)
    ensures forall q: nat :: q <= hi && (r.None? || r.value < q) ==> !CallParenAt(line, q)
    decreases hi
  {
    if hi < 0 then None
    else if CallParenAt(line, hi) then Some(hi)
    else LastCallParen(line, hi - 1)
  }

  /**
   * `re.match` of the call pattern: `m[0]` is the whole line; the greedy `.*`
   * leaves one identifier character, before the last call parenthesis, to the group.
   */
  function CallPattern(line: string): (m: Option<Match>)
    ensures m.Some? <==> !StartsAsDefinition(line) && exists q :: CallParenAt(line, q)
    ensures m.Some? ==> m.value.whole == line
  {
    if StartsAsDefinition(line) then None
    else
      match LastCallParen(line, |line|)
      case None => None
      case Some(q) => Some(Match(line, [line[q - 1]]))
  }

  /** An identifier starts at `b` and runs up to a `(`. */
  predicate CallNameAt(line: string, b: nat)
  {
    b < |line| && IsIdentChar(line[b]) &&
    var e := RunEnd(line, b, IsIdentChar);
    e < |line| && line[e] == '('
  }

  /** The identifier that starts at `b`. */
  function IdentAt(line: string, b: nat): string
    requires b <= |line|
  {
    line[b..RunEnd(line, b, IsIdentChar)]
  }

  /**
   * `re.findall(r"([a-zA-Z_]+)\(", line[pos..])`: at each position try the
   * pattern; on success record the identifier and resume after the `(`.
   */
  function FindCalls(line: string, pos: nat): (names: seq<string>)
    requires pos <= |line|
    ensures forall n :: n in names ==> exists b :: pos <= b && CallNameAt(line, b) && n == IdentAt(line, b)
    decreases |line| - pos
  {
    if pos == |line| then []
    else if CallNameAt(line, pos) then
      [IdentAt(line, pos)] + FindCalls(line, RunEnd(line, pos, IsIdentChar) + 1)
    else FindCalls(line, pos + 1)
  }

  // ---------------------------------------------------------------------
  // What the recognizers accept

  /** A greedy run ends exactly where the class first stops holding. */
  lemma {:induction false} RunEndIs(s: string, i: nat, e: nat, inClass: char -> bool)
    requires i <= e <= |s|
    requires forall k :: i <= k < e ==> inClass(s[k])
    requires e == |s| || !inClass(s[e])
    ensures RunEnd(s, i, inClass) == e
    decreases e - i
  {
    if i < e {
      RunEndIs(s, i + 1, e, inClass);
    }
  }

  /** Starting anywhere inside a run ends it at the same place. */
  lemma RunEndInside(s: string, i: nat, k: nat, inClass: char -> bool)
    requires i <= |s| && i <= k <= RunEnd(s, i, inClass)
    ensures RunEnd(s, k, inClass) == RunEnd(s, i, inClass)
  {
    RunEndIs(s, k, RunEnd(s, i, inClass), inClass);
  }

  /** The text from the space at `p` on, when the definition pattern succeeds there. */
  lemma DefAtShape(line: string, p: nat)
    requires DefAt(line, p)
    ensures var n := NameAfter(line, p);
      n != [] && (forall k :: 0 <= k < |n| ==> IsIdentChar(n[k])) &&
      HasAt(line, p, " " + n + "(glob,") && ')' in line[p + |n| + 7..]
  {
    var e := RunEnd(line, p + 1, IsIdentChar);
    var n := NameAfter(line, p);
    assert forall k :: 0 <= k < |n| ==> n[k] == line[p + 1 + k];
    assert line[p..e + 6] == [line[p]] + line[p + 1..e] + line[e..e + 6];
  }

  /**
   * A recognized definition line begins with `function` and holds
   * ` <name>(glob,` (past column 8) with a `)` somewhere after it; the name is
   * a non-empty identifier.
   */
  lemma DefinitionLineShape(line: string)
    requires DefPattern(line).Some?
    ensures var n := DefPattern(line).value.group;
      HasAt(line, 0, "function") && n != [] &&
      (forall k :: 0 <= k < |n| ==> IsIdentChar(n[k])) &&
      exists p :: 8 <= p && HasAt(line, p, " " + n + "(glob,") && ')' in line[p + |n| + 7..]
  {
    var p :| DefAt(line, p) && DefPattern(line).value.group == NameAfter(line, p);
    DefAtShape(line, p);
  }

  /** Conversely, any such line is recognized as a definition line. */
  lemma DefinitionLineRecognized(line: string, p: nat, n: string)
    requires HasAt(line, 0, "function") && 8 <= p
    requires n != [] && forall k :: 0 <= k < |n| ==> IsIdentChar(n[k])
    requires HasAt(line, p, " " + n + "(glob,") && ')' in line[p + |n| + 7..]
    ensures DefPattern(line).Some?
  {
    DefAtName(line, p, n);
  }

  lemma DefAtName(line: string, p: nat, n: string)
    requires 8 <= p
    requires n != [] && forall k :: 0 <= k < |n| ==> IsIdentChar(n[k])
    requires HasAt(line, p, " " + n + "(glob,") && ')' in line[p + |n| + 7..]
    ensures DefAt(line, p)
  {
    var e := p + 1 + |n|;
    DefinitionWordParts(line, p, n);
    assert forall k :: p + 1 <= k < e ==> IsIdentChar(line[k]) by {
      forall k | p + 1 <= k < e ensures IsIdentChar(line[k]) {
        assert line[k] == line[p + 1..e][k - p - 1];
      }
    }
    assert line[e] == "(glob,"[0];
    RunEndIs(line, p + 1, e, IsIdentChar);
  }

  /** The three parts of ` <name>(glob,` found at `p`. */
  lemma DefinitionWordParts(line: string, p: nat, n: string)
    requires HasAt(line, p, " " + n + "(glob,")
    ensures line[p] == ' '
    ensures line[p + 1..p + 1 + |n|] == n
    ensures HasAt(line, p + 1 + |n|, "(glob,")
  {
    var w := " " + n + "(glob,";
    var e := p + 1 + |n|;
    assert line[p..e + 6] == w;
    assert forall k :: p <= k < e + 6 ==> line[k] == w[k - p];
    assert line[p] == w[0];
    assert forall k :: 0 <= k < |n| ==> line[p + 1..e][k] == n[k] by {
      forall k | 0 <= k < |n| ensures line[p + 1..e][k] == n[k] {
        assert line[p + 1..e][k] == line[p + 1 + k] == w[1 + k];
      }
    }
    assert forall k :: 0 <= k < 6 ==> line[e..e + 6][k] == "(glob,"[k] by {
      forall k | 0 <= k < 6 ensures line[e..e + 6][k] == "(glob,"[k] {
        assert line[e..e + 6][k] == line[e + k] == w[1 + |n| + k];
      }
    }
  }

  /**
   * With `glob.` at `i` and no `=` before `e`, the first stop character after
   * the letters is either not `=` or is the `=` at `e`.
   */
  lemma StopAtFirstEquals(line: string, e: nat, i: nat)
    requires e < |line| && line[e] == '='
    requires forall k :: 0 <= k < e ==> line[k] != '='
    requires HasAt(line, i, "glob.") && forall k :: 0 <= k < i ==> line[k] != '='
    ensures var k := StopIndex(line, RunEnd(line, i + 5, IsLetter));
      k == |line| || line[k] != '=' || k == e
  {
    var j := RunEnd(line, i + 5, IsLetter);
    assert line[i..i + 5] == "glob.";
    assert forall k :: i <= k < i + 5 ==> line[k] != '=' by {
      assert forall k :: i <= k < i + 5 ==> line[k] == "glob."[k - i];
    }
    assert forall k :: i + 5 <= k < j ==> line[k] != '=';
    assert j <= e;
  }

  /**
   * `glob.x == 1`: when the first `=` of a line starts `==`, the assignment
   * pattern fails, whatever `glob.` references precede it.
   */
  lemma EqualityIsNotAssignment(line: string, e: nat)
    requires e + 1 < |line| && line[e] == '=' && line[e + 1] == '='
    requires forall k :: 0 <= k < e ==> line[k] != '='
    ensures AssignPattern(line).None?
  {
    forall i: nat
      ensures !AssignAt(line, i)
    {
      NoAssignBeforeEquality(line, e, i);
    }
  }

  lemma NoAssignBeforeEquality(line: string, e: nat, i: nat)
    requires e + 1 < |line| && line[e] == '=' && line[e + 1] == '='
    requires forall k :: 0 <= k < e ==> line[k] != '='
    ensures !AssignAt(line, i)
  {
    if HasAt(line, i, "glob.") && forall k :: 0 <= k < i ==> line[k] != '=' {
      StopAtFirstEquals(line, e, i);
    }
  }

  /** The access pattern matches exactly when `findall` finds some reference. */
  lemma {:induction false} AccessMatchesIffFound(line: string, pos: nat)
    requires pos <= |line|
    ensures FindGlobRefs(line, pos) != [] <==> exists i :: pos <= i && GlobRefAt(line, i)
    decreases |line| - pos
  {
    if pos < |line| && !GlobRefAt(line, pos) {
      AccessMatchesIffFound(line, pos + 1);
      assert forall i :: pos <= i && GlobRefAt(line, i) ==> pos + 1 <= i;
    }
  }

  /**
   * Every `glob.<name>` that does not lie inside the name of an earlier
   * reference is found by `findall`; there is no word boundary, so `xglob.a`
   * and `x.glob.a` are found too.
   */
  lemma {:induction false} GlobRefFound(line: string, pos: nat, i: nat)
    requires pos <= i && GlobRefAt(line, i)
    requires forall j :: pos <= j < i && GlobRefAt(line, j) ==> RunEnd(line, j + 5, IsIdentChar) <= i
    ensures RefName(line, i) in FindGlobRefs(line, pos)
    decreases |line| - pos
  {
    if pos < i {
      if GlobRefAt(line, pos) {
        GlobRefFound(line, RunEnd(line, pos + 5, IsIdentChar), i);
      } else {
        GlobRefFound(line, pos + 1, i);
      }
    }
  }

  /** No word boundary: the reference in `xglob.a` is found. */
  lemma GlobRefInsideWord(line: string)
    requires line == "xglob.a"
    ensures "a" in FindGlobRefs(line, 0)
  {
    assert line[0] == 'x' && line[1..6] == "glob." && line[6] == 'a';
    assert !GlobRefAt(line, 0);
    RunEndIs(line, 6, 7, IsIdentChar);
    assert RefName(line, 1) == "a";
    GlobRefFound(line, 0, 1);
  }

  /**
   * An identifier starting at `b`, not continuing another one, and followed
   * by `(`: one callee occurrence.
   */
  predicate CallStart(line: string, b: nat)
  {
    CallNameAt(line, b) && (b == 0 || !IsIdentChar(line[b - 1]))
  }

  /** The callee names from `b` on: one per call occurrence, left to right, duplicates kept. */
  function CallNamesFrom(line: string, b: nat): seq<string>
    requires b <= |line|
    decreases |line| - b
  {
    if b == |line| then []
    else (if CallStart(line, b) then [IdentAt(line, b)] else []) + CallNamesFrom(line, b + 1)
  }

  lemma {:induction false} CallNamesSkip(line: string, k: nat, t: nat)
    requires k <= t <= |line|
    requires forall m :: k <= m < t ==> !CallStart(line, m)
    ensures CallNamesFrom(line, k) == CallNamesFrom(line, t)
    decreases t - k
  {
    if k < t {
      CallNamesSkip(line, k + 1, t);
    }
  }

  lemma {:induction false} FindCallsSkip(line: string, k: nat, t: nat)
    requires k <= t <= |line|
    requires forall m :: k <= m < t ==> !CallNameAt(line, m)
    ensures FindCalls(line, k) == FindCalls(line, t)
    decreases t - k
  {
    if k < t {
      FindCallsSkip(line, k + 1, t);
    }
  }

  /** Inside an identifier run, and at the character that ends it, no call occurrence starts. */
  lemma NoCallStartInRun(line: string, pos: nat)
    requires pos < |line|
    ensures var e := RunEnd(line, pos, IsIdentChar);
      forall m :: pos < m <= e && m < |line| ==> !CallStart(line, m)
  {
    var e := RunEnd(line, pos, IsIdentChar);
    forall m | pos < m < e
      ensures !CallStart(line, m)
    {
      assert IsIdentChar(line[m - 1]);
    }
  }

  /** A run that is not followed by `(` holds no call name anywhere inside it. */
  lemma NoCallNameInRun(line: string, pos: nat)
    requires pos < |line| && !CallNameAt(line, pos)
    ensures var e := RunEnd(line, pos, IsIdentChar);
      forall m :: pos <= m <= e && m < |line| ==> !CallNameAt(line, m)
  {
    var e := RunEnd(line, pos, IsIdentChar);
    forall m | pos <= m < e
      ensures !CallNameAt(line, m)
    {
      RunEndInside(line, pos, m, IsIdentChar);
    }
  }

  /**
   * `findall` over the call pattern yields exactly the identifiers that are
   * immediately followed by `(`, each whole, left to right, duplicates kept.
   */
  lemma FindCallsAreCallNames(line: string)
    ensures FindCalls(line, 0) == CallNamesFrom(line, 0)
  {
    FindCallsFrom(line, 0);
  }

  lemma {:induction false} FindCallsFrom(line: string, pos: nat)
    requires pos <= |line|
    requires pos == 0 || !IsIdentChar(line[pos - 1])
    ensures FindCalls(line, pos) == CallNamesFrom(line, pos)
    decreases |line| - pos
  {
    if pos < |line| {
      var e := RunEnd(line, pos, IsIdentChar);
      var t := if e < |line| then e + 1 else e;
      if CallNameAt(line, pos) {
        assert CallNamesFrom(line, pos) == [IdentAt(line, pos)] + CallNamesFrom(line, t) by {
          assert CallStart(line, pos);
          NoCallStartInRun(line, pos);
          CallNamesSkip(line, pos + 1, t);
        }
        assert FindCalls(line, pos) == [IdentAt(line, pos)] + FindCalls(line, t);
      } else {
        assert CallNamesFrom(line, pos) == CallNamesFrom(line, t) by {
          NoCallStartInRun(line, pos);
          CallNamesSkip(line, pos, t);
        }
        assert FindCalls(line, pos) == FindCalls(line, t) by {
          NoCallNameInRun(line, pos);
          FindCallsSkip(line, pos, t);
        }
      }
      if t < |line| {
        FindCallsFrom(line, t);
      }
    }
  }
}
