/**
 CPU time of a process tree (scripts/runtime-first-token-benchmark.ts:568-592): a depth-first
 walk with an explicit stack over the parent links that `ps` reports. The links are taken as
 they come: they may repeat, contradict each other or form cycles.
 */
module ProcessTree {
  import opened Results
  import opened Sequences

  /** A line of the process list, parsed. */
  datatype Row = Row(pid: int, ppid: int, seconds: real)

  /** The time listed last for a process, zero for an unknown one. */
  function Seconds(rows: seq<Row>, id: int): real {
    if rows == [] then 0.0
    else
      var last := rows[|rows| - 1];
      if last.pid == id then last.seconds else Seconds(rows[..|rows| - 1], id)
  }

  function Children(rows: seq<Row>, id: int): seq<int> {
    if rows == [] then []
    else
      var last := rows[|rows| - 1];
      Children(rows[..|rows| - 1], id) + if last.ppid == id then [last.pid] else []
  }

  ghost predicate Descends(rows: seq<Row>, trace: seq<int>) {
    forall i | 0 <= i < |trace| - 1 :: trace[i + 1] in Children(rows, trace[i])
  }

  ghost predicate Reachable(rows: seq<Row>, root: int, id: int) {
    exists trace :: |trace| > 0 && trace[0] == root && trace[|trace| - 1] == id && Descends(rows, trace)
  }

  ghost function Known(rows: seq<Row>, root: int): set<int> {
    {root} + set row | row in rows :: row.pid
  }

  ghost function Tree(rows: seq<Row>, root: int): set<int> {
    set id | id in Known(rows, root) && Reachable(rows, root, id)
  }

  ghost function Member(ids: set<int>): (id: int)
    requires ids != {}
    ensures id in ids
  {
    NonEmpty(ids);
    var id :| id in ids;
    id
  }

  lemma NonEmpty(ids: set<int>)
    ensures ids == {} || exists id :: id in ids
  {
    assert (forall id :: id !in ids) ==> ids == {};
  }

  /** The sum of the times over a set of processes, each counted once. */
  ghost function Sum(rows: seq<Row>, ids: set<int>): real {
    if ids == {} then 0.0
    else
      var id := Member(ids);
      Seconds(rows, id) + Sum(rows, ids - {id})
  }

  lemma {:induction false} SumWith(rows: seq<Row>, ids: set<int>, id: int)
    requires id in ids
    ensures Sum(rows, ids) == Seconds(rows, id) + Sum(rows, ids - {id})
    decreases ids
  {
    hide Seconds;
    var first := Member(ids);
    if first != id {
      SumWith(rows, ids - {first}, id);
      SumWith(rows, ids - {id}, first);
      assert ids - {first} - {id} == ids - {id} - {first};
    }
  }

  lemma {:induction false} ChildIsListed(rows: seq<Row>, id: int, child: int)
    requires child in Children(rows, id)
    ensures exists row :: row in rows && row.pid == child && row.ppid == id
  {
    var last := rows[|rows| - 1];
    if last.ppid == id && last.pid == child {
      assert last in rows;
    } else {
      ChildIsListed(rows[..|rows| - 1], id, child);
    }
  }

  lemma ChildIsReachable(rows: seq<Row>, root: int, id: int, child: int)
    requires Reachable(rows, root, id) && child in Children(rows, id)
    ensures Reachable(rows, root, child) && child in Tree(rows, root)
  {
    var trace :| |trace| > 0 && trace[0] == root && trace[|trace| - 1] == id && Descends(rows, trace);
    var longer := trace + [child];
    assert Descends(rows, longer) by {
      forall i | 0 <= i < |longer| - 1
        ensures longer[i + 1] in Children(rows, longer[i])
      {
        if i < |trace| - 1 { assert trace[i + 1] in Children(rows, trace[i]); }
      }
    }
    assert longer[|longer| - 1] == child;
    ChildIsListed(rows, id, child);
  }

  lemma RootIsReachable(rows: seq<Row>, root: int)
    ensures Reachable(rows, root, root) && root in Tree(rows, root)
  {
    assert Descends(rows, [root]);
  }

  /** A set of processes that holds the root and the children of its members holds the whole tree. */
  lemma ClosedHoldsTree(rows: seq<Row>, root: int, ids: set<int>)
    requires root in ids
    requires forall id, child | id in ids && child in Children(rows, id) :: child in ids
    ensures Tree(rows, root) <= ids
  {
    forall id | id in Tree(rows, root)
      ensures id in ids
    {
      var trace :| |trace| > 0 && trace[0] == root && trace[|trace| - 1] == id && Descends(rows, trace);
      TraceStays(rows, trace, ids, |trace| - 1);
    }
  }

  lemma {:induction false} TraceStays(rows: seq<Row>, trace: seq<int>, ids: set<int>, i: nat)
    requires i < |trace| && trace[0] in ids && Descends(rows, trace)
    requires forall id, child | id in ids && child in Children(rows, id) :: child in ids
    ensures trace[i] in ids
  {
    if i > 0 {
      TraceStays(rows, trace, ids, i - 1);
      assert trace[i - 1 + 1] in Children(rows, trace[i - 1]);
    }
  }

  lemma SumOfNone(rows: seq<Row>)
    ensures Sum(rows, {}) == 0.0
  {
  }

  lemma LastOut<T>(s: seq<T>)
    requires s != []
    ensures forall x :: x in s <==> x in s[..|s| - 1] || x == s[|s| - 1]
  {
    assert s == s[..|s| - 1] + [s[|s| - 1]];
  }

  /** The two maps describe the rows. */
  ghost predicate Indexed(rows: seq<Row>, children: map<int, seq<int>>, cpu: map<int, real>) {
    && (forall id :: (if id in children then children[id] else []) == Children(rows, id))
    && (forall id :: (if id in cpu then cpu[id] else 0.0) == Seconds(rows, id))
  }

  lemma NothingIndexed()
    ensures Indexed([], map[], map[])
  {
  }

  lemma RowIndexed(rows: seq<Row>, row: Row, children: map<int, seq<int>>, cpu: map<int, real>)
    requires Indexed(rows, children, cpu)
    ensures var siblings := if row.ppid in children then children[row.ppid] else [];
            Indexed(rows + [row], children[row.ppid := siblings + [row.pid]], cpu[row.pid := row.seconds])
  {
    forall id
      ensures Children(rows + [row], id) == Children(rows, id) + if row.ppid == id then [row.pid] else []
      ensures Seconds(rows + [row], id) == if row.pid == id then row.seconds else Seconds(rows, id)
    {
      LastRow(rows, row, id);
    }
    hide Children, Seconds;
  }

  lemma LastRow(rows: seq<Row>, row: Row, id: int)
    ensures Children(rows + [row], id) == Children(rows, id) + if row.ppid == id then [row.pid] else []
    ensures Seconds(rows + [row], id) == if row.pid == id then row.seconds else Seconds(rows, id)
  {
    assert (rows + [row])[..|rows|] == rows;
  }

  /** Builds the source's two maps in one pass over the rows. */
  method Index(rows: seq<Row>) returns (children: map<int, seq<int>>, cpu: map<int, real>)
    ensures Indexed(rows, children, cpu)
  {
    hide Indexed;
    children, cpu := map[], map[];
    NothingIndexed();
    Whole(rows);
    for i := 0 to |rows|
      invariant Indexed(rows[..i], children, cpu)
    {
      var row := rows[i];
      TakeLast(rows, i);
      RowIndexed(rows[..i], row, children, cpu);
      cpu := cpu[row.pid := row.seconds];
      var siblings := if row.ppid in children then children[row.ppid] else [];
      children := children[row.ppid := siblings + [row.pid]];
    }
  }

  /** The listing fails, or gives rows; the walk adds each process of the tree exactly once. */
  method TreeCpuSeconds(listing: Option<seq<Row>>, rootPid: int) returns (total: real)
    ensures total == if listing.None? then 0.0 else Sum(listing.value, Tree(listing.value, rootPid))
  {
    if listing.None? { return 0.0; }
    var rows := listing.value;
    var children, cpu := Index(rows);
    hide Tree, Children, Sum, Seconds, Walk, Indexed;
    total := 0.0;
    SumOfNone(rows);
    var stack := [rootPid];
    var seen: set<int> := {};
    WalkStarts(rows, rootPid);
    while stack != []
      invariant Walk(rows, rootPid, seen, stack)
      invariant total == Sum(rows, seen)
      decreases Tree(rows, rootPid) - seen, |stack|
    {
      var id := stack[|stack| - 1];
      Popped(rows, rootPid, seen, stack);
      stack := stack[..|stack| - 1];
      if id in seen { continue; }
      SumOfOneMore(rows, seen, id);
      Looked(rows, children, cpu, id);
      seen := seen + {id};
      total := total + if id in cpu then cpu[id] else 0.0;
      stack := stack + if id in children then children[id] else [];
    }
    WalkIsOver(rows, rootPid, seen);
  }

  lemma SumOfOneMore(rows: seq<Row>, seen: set<int>, id: int)
    requires id !in seen
    ensures Sum(rows, seen + {id}) == Sum(rows, seen) + Seconds(rows, id)
  {
    hide Sum, Seconds;
    SumWith(rows, seen + {id}, id);
    assert seen + {id} - {id} == seen;
  }

  lemma Looked(rows: seq<Row>, children: map<int, seq<int>>, cpu: map<int, real>, id: int)
    requires Indexed(rows, children, cpu)
    ensures (if id in children then children[id] else []) == Children(rows, id)
    ensures (if id in cpu then cpu[id] else 0.0) == Seconds(rows, id)
  {
  }

  /** Seen and waiting processes belong to the tree, and the children of what was seen are one or the other. */
  ghost predicate Walk(rows: seq<Row>, root: int, seen: set<int>, stack: seq<int>) {
    && (forall id | id in stack :: id in Tree(rows, root))
    && seen <= Tree(rows, root)
    && (root in seen || root in stack)
    && (forall id, child | id in seen && child in Children(rows, id) :: child in seen || child in stack)
  }

  lemma Popped(rows: seq<Row>, root: int, seen: set<int>, stack: seq<int>)
    requires stack != [] && Walk(rows, root, seen, stack)
    ensures var id, rest := stack[|stack| - 1], stack[..|stack| - 1];
            && id in Tree(rows, root)
            && if id in seen then Walk(rows, root, seen, rest)
               else Walk(rows, root, seen + {id}, rest + Children(rows, id))
  {
    hide Tree, Children;
    var id := stack[|stack| - 1];
    LastOut(stack);
    forall child | child in Children(rows, id)
      ensures child in Tree(rows, root)
    {
      InTree(rows, root, id);
      ChildIsReachable(rows, root, id, child);
    }
  }

  lemma WalkStarts(rows: seq<Row>, root: int)
    ensures Walk(rows, root, {}, [root])
  {
    RootIsReachable(rows, root);
  }

  lemma InTree(rows: seq<Row>, root: int, id: int)
    ensures id in Tree(rows, root) ==> Reachable(rows, root, id)
  {
  }

  lemma WalkIsOver(rows: seq<Row>, root: int, seen: set<int>)
    requires Walk(rows, root, seen, [])
    ensures seen == Tree(rows, root)
  {
    hide Tree, Children;
    ClosedHoldsTree(rows, root, seen);
  }
}
