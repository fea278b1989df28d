/**
 * The data behind the `graph` command of code_analysis/app.py (lines
 * 41-51 and 61-62): which variables exactly one function writes, the
 * const / read-only / modify columns of every function's table, and one
 * edge per recorded call.
 */
module Graph {
  import opened Wrappers
  import Order
  import opened Scans

  // ---------------------------------------------------------------------
  // write_count and write_once (app.py lines 41-45)

  /** The functions of `fns` whose assignments hold `v`. */
  function Writers(fns: set<string>, asg: map<string, set<string>>, v: string): set<string>
  {
    set f | f in fns && v in Entries(asg, f)
  }

  /** The variables some function of `fns` assigns. */
  function Assigned(fns: set<string>, asg: map<string, set<string>>): set<string>
  {
    set f, v | f in fns && v in Entries(asg, f) :: v
  }

  /** `write_count` once filled: for every written variable, how many functions assign it. */
  function WriteCounts(fns: set<string>, asg: map<string, set<string>>): map<string, nat>
  {
    map v | v in Assigned(fns, asg) :: |Writers(fns, asg, v)|
  }

  /** A variable is counted exactly when some function writes it, and its count is the number of its writers. */
  lemma WriteCountsAre(fns: set<string>, asg: map<string, set<string>>)
    ensures var wc := WriteCounts(fns, asg);
      (forall v :: v in wc <==> Writers(fns, asg, v) != {}) &&
      (forall v :: v in wc ==> wc[v] == |Writers(fns, asg, v)| && wc[v] >= 1)
  {
    AssignedHasWriters(fns, asg);
  }

  lemma AssignedHasWriters(fns: set<string>, asg: map<string, set<string>>)
    ensures forall v :: v in Assigned(fns, asg) <==> Writers(fns, asg, v) != {}
  {
    forall v
      ensures v in Assigned(fns, asg) <==> Writers(fns, asg, v) != {}
    {
      if Writers(fns, asg, v) != {} {
        var f :| f in Writers(fns, asg, v);
        assert f in fns && v in Entries(asg, f);
      }
      if v in Assigned(fns, asg) {
        var f, w :| f in fns && w in Entries(asg, f) && w == v;
        assert f in Writers(fns, asg, v);
      }
    }
  }

  /** `write_once`: the variables counted exactly once. */
  function WriteOnce(wc: map<string, nat>): set<string>
  {
    set v | v in wc && wc[v] == 1
  }

  /**
   * A variable is write-once exactly when a single function assigns it; a
   * variable no function assigns is never write-once.
   */
  lemma WriteOnceIsOneWriter(fns: set<string>, asg: map<string, set<string>>, v: string)
    ensures v in WriteOnce(WriteCounts(fns, asg)) <==> exists f :: Writers(fns, asg, v) == {f}
    ensures Writers(fns, asg, v) == {} ==> v !in WriteOnce(WriteCounts(fns, asg))
  {
    WriteCountsAre(fns, asg);
    var w := Writers(fns, asg, v);
    if |w| == 1 {
      var f :| f in w;
      assert |w - {f}| == 0;
      assert w == {f};
    }
  }

  lemma WritersAdd(done: set<string>, asg: map<string, set<string>>, f: string, v: string)
    requires f !in done
    ensures Writers(done + {f}, asg, v) == Writers(done, asg, v) + (if v in Entries(asg, f) then {f} else {})
    ensures |Writers(done + {f}, asg, v)| == |Writers(done, asg, v)| + (if v in Entries(asg, f) then 1 else 0)
  {
    if v in Entries(asg, f) {
      assert Writers(done + {f}, asg, v) == Writers(done, asg, v) + {f};
    } else {
      assert Writers(done + {f}, asg, v) == Writers(done, asg, v);
    }
  }

  /** The inner loop of app.py lines 43-44: `write_count[v] += 1` for every `v` in `vs`. */
  method CountEach(wc0: map<string, nat>, vs: set<string>) returns (wc: map<string, nat>)
    ensures forall v :: v in wc <==> v in wc0 || v in vs
    ensures forall v :: v in wc ==> wc[v] == (if v in wc0 then wc0[v] else 0) + (if v in vs then 1 else 0)
  {
    wc := wc0;
    var todo := vs;
    ghost var done: set<string> := {};
    while todo != {}
      invariant todo + done == vs && todo !! done
      invariant forall v :: v in wc <==> v in wc0 || v in done
      invariant forall v :: v in wc ==> wc[v] == (if v in wc0 then wc0[v] else 0) + (if v in done then 1 else 0)
      decreases |todo|
    {
      var v :| v in todo;
      wc := wc[v := (if v in wc then wc[v] else 0) + 1];
      todo, done := todo - {v}, done + {v};
    }
  }

  /** Counting one more function's assignments gives the counts over one more function. */
  lemma WriteCountsStep(done: set<string>, asg: map<string, set<string>>, f: string, wc0: map<string, nat>, wc: map<string, nat>)
    requires f !in done
    requires wc0 == WriteCounts(done, asg)
    requires forall v :: v in wc <==> v in wc0 || v in Entries(asg, f)
    requires forall v :: v in wc ==> wc[v] == (if v in wc0 then wc0[v] else 0) + (if v in Entries(asg, f) then 1 else 0)
    ensures wc == WriteCounts(done + {f}, asg)
  {
    WriteCountsAre(done, asg);
    WriteCountsAre(done + {f}, asg);
    var target := WriteCounts(done + {f}, asg);
    forall v
      ensures v in wc <==> v in target
      ensures v in wc ==> wc[v] == target[v]
    {
      WritersAdd(done, asg, f, v);
    }
  }

  /**
   * The nested loop of app.py lines 41-44: for every function, one increment
   * per variable it assigns.
   */
  method WriteCount(fns: set<string>, asg: map<string, set<string>>) returns (wc: map<string, nat>)
    ensures wc == WriteCounts(fns, asg)
  {
    wc := map[];
    var todo := fns;
    ghost var done: set<string> := {};
    while todo != {}
      invariant forall g :: g in fns <==> g in todo || g in done
      invariant todo !! done
      invariant wc == WriteCounts(done, asg)
      decreases |todo|
    {
      var f :| f in todo;
      ghost var wc0 := wc;
      wc := CountEach(wc, Entries(asg, f));
      assert wc == WriteCounts(done + {f}, asg) by {
        WriteCountsStep(done, asg, f, wc0, wc);
      }
      todo, done := todo - {f}, done + {f};
    }
    assert done == fns;
  }

  // ---------------------------------------------------------------------
  // The columns of a function's table (app.py lines 48-51)

  datatype Columns = Columns(consts: set<string>, readonly: set<string>, readwrite: set<string>)

  /**
   * `consts`, `readonly` and `readwrite` for a function that accesses
   * `access` and assigns `written`.
   */
  function Classify(access: set<string>, written: set<string>, writeOnce: set<string>): Columns
  {
    var consts := access * writeOnce;
    Columns(consts, access - written - consts, written)
  }

  /**
   * An accessed variable (read or written) is const when exactly one
   * function writes it, read-only when this function does not write it and
   * it is not const, and the modify column is everything the function
   * writes: every accessed variable lands in some column, and read-only
   * shares nothing with the other two.
   */
  lemma ClassifyIs(access: set<string>, written: set<string>, writeOnce: set<string>)
    ensures var c := Classify(access, written, writeOnce);
      (forall v :: v in c.consts <==> v in access && v in writeOnce) &&
      (forall v :: v in c.readonly <==> v in access && v !in written && v !in writeOnce) &&
      c.readwrite == written &&
      c.consts <= access && c.readonly <= access &&
      c.readonly !! written && c.readonly !! c.consts &&
      access <= c.consts + c.readonly + c.readwrite
  {
  }

  /** The columns of function `f` in the trace `t`. */
  function ColumnsOf(t: TraceState, f: string): Columns
  {
    Classify(Entries(t.access, f), Entries(t.assignments, f), WriteOnce(WriteCounts(t.functions, t.assignments)))
  }

  /** A variable in a function's const column is written by exactly one known function. */
  lemma ConstHasOneWriter(t: TraceState, f: string, v: string)
    requires v in ColumnsOf(t, f).consts
    ensures exists g :: g in t.functions && Writers(t.functions, t.assignments, v) == {g}
  {
    ClassifyIs(Entries(t.access, f), Entries(t.assignments, f), WriteOnce(WriteCounts(t.functions, t.assignments)));
    WriteOnceIsOneWriter(t.functions, t.assignments, v);
    var g :| Writers(t.functions, t.assignments, v) == {g};
    assert g in Writers(t.functions, t.assignments, v);
  }

  // ---------------------------------------------------------------------
  // The rows of a table: zip_longest of the sorted columns (app.py line 51)

  /** One row: a cell per column, `None` where that column has run out. */
  datatype Row = Row(co: Option<string>, ro: Option<string>, rw: Option<string>)

  /** The `i`-th cell of a column, `None` past its end. */
  function Cell(col: seq<string>, i: int): (c: Option<string>)
    ensures c.Some? <==> 0 <= i < |col|
    ensures c.Some? ==> c.value == col[i]
  {
    if 0 <= i < |col| then Some(col[i]) else None
  }

  function Max3(a: nat, b: nat, c: nat): (m: nat)
    ensures m >= a && m >= b && m >= c && (m == a || m == b || m == c)
  {
    if a >= b && a >= c then a else if b >= c then b else c
  }

  /** `zip_longest(a, b, c)`. */
  function ZipLongest(a: seq<string>, b: seq<string>, c: seq<string>): (rows: seq<Row>)
    ensures |rows| == Max3(|a|, |b|, |c|)
    ensures forall i :: 0 <= i < |rows| ==> rows[i] == Row(Cell(a, i), Cell(b, i), Cell(c, i))
  {
    seq(Max3(|a|, |b|, |c|), i => Row(Cell(a, i), Cell(b, i), Cell(c, i)))
  }

  /** The table of a function: `zip_longest` of its three columns, each sorted. */
  function Table(c: Columns): (rows: seq<Row>)
    ensures |rows| == Max3(|c.consts|, |c.readonly|, |c.readwrite|)
  {
    ZipLongest(Order.SortSet(c.consts), Order.SortSet(c.readonly), Order.SortSet(c.readwrite))
  }

  /** A sorted column laid out over `n` rows: sorted from the top, padding only below. */
  lemma CellsSorted(col: seq<string>, n: nat)
    requires Order.StrictlySorted(col) && |col| <= n
    ensures forall i, j :: 0 <= i < j < n && Cell(col, j).Some? ==>
              Cell(col, i).Some? && Order.Less(Cell(col, i).value, Cell(col, j).value)
  {
  }

  /** A column laid out over `n` rows shows exactly its own entries. */
  lemma CellsCover(col: seq<string>, n: nat)
    requires |col| <= n
    ensures forall v :: v in col <==> exists i :: 0 <= i < n && Cell(col, i) == Some(v)
  {
    forall v | v in col
      ensures exists i :: 0 <= i < n && Cell(col, i) == Some(v)
    {
      var i :| 0 <= i < |col| && col[i] == v;
      assert Cell(col, i) == Some(v);
    }
  }

  /** The rows of a table hold, column by column, the cells of the sorted columns. */
  lemma TableCells(c: Columns)
    ensures var rows := Table(c);
      forall i :: 0 <= i < |rows| ==>
        rows[i].co == Cell(Order.SortSet(c.consts), i) &&
        rows[i].ro == Cell(Order.SortSet(c.readonly), i) &&
        rows[i].rw == Cell(Order.SortSet(c.readwrite), i)
  {
  }

  /** Every column of a table is sorted, its entries at the top and the empty cells below. */
  lemma TableSorted(c: Columns)
    ensures var rows := Table(c);
      (forall i, j :: 0 <= i < j < |rows| && rows[j].co.Some? ==>
         rows[i].co.Some? && Order.Less(rows[i].co.value, rows[j].co.value)) &&
      (forall i, j :: 0 <= i < j < |rows| && rows[j].ro.Some? ==>
         rows[i].ro.Some? && Order.Less(rows[i].ro.value, rows[j].ro.value)) &&
      (forall i, j :: 0 <= i < j < |rows| && rows[j].rw.Some? ==>
         rows[i].rw.Some? && Order.Less(rows[i].rw.value, rows[j].rw.value))
  {
    var n := |Table(c)|;
    TableCells(c);
    CellsSorted(Order.SortSet(c.consts), n);
    CellsSorted(Order.SortSet(c.readonly), n);
    CellsSorted(Order.SortSet(c.readwrite), n);
  }

  /** Each column of a table shows exactly the variables of that column; one row per entry of the longest. */
  lemma TableCovers(c: Columns)
    ensures var rows := Table(c);
      |rows| == Max3(|c.consts|, |c.readonly|, |c.readwrite|) &&
      (forall v :: v in c.consts <==> exists i :: 0 <= i < |rows| && rows[i].co == Some(v)) &&
      (forall v :: v in c.readonly <==> exists i :: 0 <= i < |rows| && rows[i].ro == Some(v)) &&
      (forall v :: v in c.readwrite <==> exists i :: 0 <= i < |rows| && rows[i].rw == Some(v))
  {
    var n := |Table(c)|;
    TableCells(c);
    CellsCover(Order.SortSet(c.consts), n);
    CellsCover(Order.SortSet(c.readonly), n);
    CellsCover(Order.SortSet(c.readwrite), n);
  }

  // ---------------------------------------------------------------------
  // The node and edge loop (app.py lines 47-51 and 61-62)

  /** The edges `f -> e`, one per entry of `calls`, in order. */
  function EdgesFrom(f: string, calls: seq<string>): (edges: seq<(string, string)>)
    ensures |edges| == |calls| && forall i :: 0 <= i < |calls| ==> edges[i] == (f, calls[i])
    ensures forall g, e :: multiset(edges)[(g, e)] == if g == f then multiset(calls)[e] else 0
    decreases |calls|
  {
    if calls == [] then []
    else
      var n := |calls| - 1;
      assert calls == calls[..n] + [calls[n]];
      EdgesFrom(f, calls[..n]) + [(f, calls[n])]
  }

  /**
   * The loop over `t.functions`: a table per function, and one edge per
   * entry of its call list, repetitions included. Calls recorded under no
   * function (`calls[None]`) are never drawn.
   */
  method Render(t: TraceState) returns (tables: map<string, seq<Row>>, edges: seq<(string, string)>)
    ensures forall f :: f in tables <==> f in t.functions
    ensures forall f :: f in tables ==> tables[f] == Table(ColumnsOf(t, f))
    ensures forall f, e :: multiset(edges)[(f, e)] == if f in t.functions then multiset(Lookup(t.calls, Some(f)))[e] else 0
  {
    var wc := WriteCount(t.functions, t.assignments);
    var writeOnce := WriteOnce(wc);
    tables, edges := map[], [];
    var todo := t.functions;
    ghost var done: set<string> := {};
    while todo != {}
      invariant forall g :: g in t.functions <==> g in todo || g in done
      invariant todo !! done
      invariant Drawn(t, done, tables, edges)
      decreases |todo|
    {
      var f :| f in todo;
      tables, edges := Node(t, writeOnce, f, done, tables, edges);
      todo, done := todo - {f}, done + {f};
    }
  }

  /** The tables and edges drawn once the functions `done` have been visited. */
  ghost predicate Drawn(t: TraceState, done: set<string>, tables: map<string, seq<Row>>, edges: seq<(string, string)>)
  {
    TablesDrawn(t, done, tables) && EdgesDrawn(t, done, edges)
  }

  ghost predicate TablesDrawn(t: TraceState, done: set<string>, tables: map<string, seq<Row>>)
  {
    (forall f :: f in tables <==> f in done) &&
    (forall f :: f in tables ==> tables[f] == Table(ColumnsOf(t, f)))
  }

  ghost predicate EdgesDrawn(t: TraceState, done: set<string>, edges: seq<(string, string)>)
  {
    forall f, e :: multiset(edges)[(f, e)] == if f in done then multiset(Lookup(t.calls, Some(f)))[e] else 0
  }

  /** One pass of the loop body of app.py lines 47-62: the table node of `f`, then its call edges. */
  method Node(t: TraceState, writeOnce: set<string>, f: string, ghost done: set<string>,
              tables0: map<string, seq<Row>>, edges0: seq<(string, string)>)
    returns (tables: map<string, seq<Row>>, edges: seq<(string, string)>)
    requires writeOnce == WriteOnce(WriteCounts(t.functions, t.assignments))
    requires f !in done && Drawn(t, done, tables0, edges0)
    ensures tables == tables0[f := Table(ColumnsOf(t, f))]
    ensures edges == edges0 + EdgesFrom(f, Lookup(t.calls, Some(f)))
    ensures Drawn(t, done + {f}, tables, edges)
  {
    var cols := Classify(Entries(t.access, f), Entries(t.assignments, f), writeOnce);
    assert cols == ColumnsOf(t, f);
    tables := tables0[f := Table(cols)];
    edges := AddEdges(edges0, f, Lookup(t.calls, Some(f)));
    TablesStep(t, done, f, tables0);
    EdgesStep(t, done, f, edges0);
  }

  lemma TablesStep(t: TraceState, done: set<string>, f: string, tables0: map<string, seq<Row>>)
    requires TablesDrawn(t, done, tables0)
    ensures TablesDrawn(t, done + {f}, tables0[f := Table(ColumnsOf(t, f))])
  {
    var tables := tables0[f := Table(ColumnsOf(t, f))];
    forall g | g in tables
      ensures tables[g] == Table(ColumnsOf(t, g))
    {
      if g != f {
        assert g in tables0;
      }
    }
  }

  lemma EdgesStep(t: TraceState, done: set<string>, f: string, edges0: seq<(string, string)>)
    requires f !in done && EdgesDrawn(t, done, edges0)
    ensures EdgesDrawn(t, done + {f}, edges0 + EdgesFrom(f, Lookup(t.calls, Some(f))))
  {
    EdgeCountStep(edges0, f, Lookup(t.calls, Some(f)));
  }

  lemma EdgeCountStep(edges0: seq<(string, string)>, f: string, calls: seq<string>)
    ensures forall g, e :: multiset(edges0 + EdgesFrom(f, calls))[(g, e)] ==
                           multiset(edges0)[(g, e)] + (if g == f then multiset(calls)[e] else 0)
  {
  }

  /** The inner loop of app.py lines 61-62: `g.edge(f, e)` for every `e` in `calls`, in order. */
  method AddEdges(edges0: seq<(string, string)>, f: string, calls: seq<string>) returns (edges: seq<(string, string)>)
    ensures edges == edges0 + EdgesFrom(f, calls)
  {
    edges := edges0;
    for j := 0 to |calls|
      invariant |edges| == |edges0| + j
      invariant edges[..|edges0|] == edges0
      invariant forall i :: 0 <= i < j ==> edges[|edges0| + i] == (f, calls[i])
    {
      edges := edges + [(f, calls[j])];
    }
    EdgesFromIs(edges0, f, calls, edges);
  }

  lemma EdgesFromIs(edges0: seq<(string, string)>, f: string, calls: seq<string>, edges: seq<(string, string)>)
    requires |edges| == |edges0| + |calls| && edges[..|edges0|] == edges0
    requires forall i :: 0 <= i < |calls| ==> edges[|edges0| + i] == (f, calls[i])
    ensures edges == edges0 + EdgesFrom(f, calls)
  {
    var r := EdgesFrom(f, calls);
    assert forall i :: 0 <= i < |r| ==> r[i] == (f, calls[i]);
    assert edges[|edges0|..] == r;
    assert edges == edges[..|edges0|] + edges[|edges0|..];
  }
}
