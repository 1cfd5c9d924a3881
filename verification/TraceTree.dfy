/** The tree of one trace (internal/store/spans.go): a depth-first walk over whatever parent
    relation the spans arrived with, cycles, repeated ids and missing parents included. */
module TraceTree {
  import opened Common

  datatype Row = Row(id: string, parent: string)

  function Ids(rows: seq<Row>): set<string> {
    set r | r in rows :: r.id
  }

  /** The children listed under an id, in row order. */
  function ChildrenOf(rows: seq<Row>, p: string): (c: seq<string>)
    ensures forall x :: x in c ==> p != "" && x in Ids(rows) && Row(x, p) in rows
  {
    if rows == [] then [] else
      var n := |rows| - 1;
      var before := ChildrenOf(rows[..n], p);
      if rows[n].parent != "" && rows[n].parent == p then before + [rows[n].id] else before
  }

  predicate IsRoot(rows: seq<Row>, row: Row) {
    row.parent == "" || row.parent !in Ids(rows)
  }

  function RootsAmong(rows: seq<Row>, some: seq<Row>): (r: seq<string>)
    ensures forall x :: x in r ==> exists row :: row in some && row.id == x && IsRoot(rows, row)
    ensures forall row :: row in some && IsRoot(rows, row) ==> row.id in r
  {
    if some == [] then [] else
      var n := |some| - 1;
      var before := RootsAmong(rows, some[..n]);
      assert some == some[..n] + [some[n]];
      if IsRoot(rows, some[n]) then before + [some[n].id] else before
  }

  /** The spans without a parent in the trace; the first span if there is none. */
  function Roots(rows: seq<Row>): (r: seq<string>)
    requires rows != []
    ensures forall x :: x in r ==> x in Ids(rows)
  {
    var r := RootsAmong(rows, rows);
    if r == [] then [rows[0].id] else r
  }

  function IdList(rows: seq<Row>): (r: seq<string>)
    ensures forall x :: x in r <==> x in Ids(rows)
  {
    if rows == [] then [] else
      assert rows == rows[..|rows| - 1] + [rows[|rows| - 1]];
      IdList(rows[..|rows| - 1]) + [rows[|rows| - 1].id]
  }

  /** What the walk has built so far. */
  datatype Tree = Tree(visited: set<string>, depth: map<string, nat>, ordered: seq<string>)

  function Enter(t: Tree, id: string, d: nat): Tree {
    Tree(t.visited + {id}, t.depth[id := d], t.ordered + [id])
  }

  function Visit(rows: seq<Row>, t: Tree, id: string, d: nat): (r: Tree)
    requires id in Ids(rows)
    ensures t.visited <= r.visited && id in r.visited
    decreases Ids(rows) - t.visited, 0
  {
    if id in t.visited then t else VisitAll(rows, Enter(t, id, d), ChildrenOf(rows, id), d + 1)
  }

  function VisitAll(rows: seq<Row>, t: Tree, ids: seq<string>, d: nat): (r: Tree)
    requires forall x :: x in ids ==> x in Ids(rows)
    ensures t.visited <= r.visited && forall x :: x in ids ==> x in r.visited
    decreases Ids(rows) - t.visited, |ids|
  {
    if ids == [] then t else
      assert ids[0] in ids;
      VisitAll(rows, Visit(rows, t, ids[0], d), ids[1..], d)
  }

  const EMPTY := Tree({}, map[], [])

  /** First from the roots, then from every span that was not reached. */
  function Walk(rows: seq<Row>): Tree
    requires rows != []
  {
    VisitAll(rows, VisitAll(rows, EMPTY, Roots(rows), 0), IdList(rows), 0)
  }

  // ----- The source's closure over shared maps -----

  class TraceBuilder {
    ghost const rows: seq<Row>
    const parentToChildren: map<string, seq<string>>
    var visited: set<string>
    var depthMap: map<string, nat>
    var orderedIDs: seq<string>

    ghost predicate Valid()
    {
      forall p :: ChildrenOf(rows, p) == if p in parentToChildren then parentToChildren[p] else []
    }

    function State(): Tree
      reads this
    {
      Tree(visited, depthMap, orderedIDs)
    }

    constructor (rows: seq<Row>, parentToChildren: map<string, seq<string>>)
      requires forall p :: ChildrenOf(rows, p) == if p in parentToChildren then parentToChildren[p] else []
      ensures Valid() && this.rows == rows && State() == EMPTY
    {
      this.rows := rows;
      this.parentToChildren := parentToChildren;
      visited, depthMap, orderedIDs := {}, map[], [];
    }

    /** The recursive closure. It ends on every parent relation: each call that goes deeper has
        marked one more of the finitely many ids. */
    method Traverse(id: string, depth: nat)
      requires Valid() && id in Ids(rows)
      modifies this
      ensures State() == Visit(rows, old(State()), id, depth)
      decreases Ids(rows) - visited
    {
      if id in visited {
        return;
      }
      visited := visited + {id};
      depthMap := depthMap[id := depth];
      orderedIDs := orderedIDs + [id];
      ghost var entered := State();
      var children := if id in parentToChildren then parentToChildren[id] else [];
      assert children == ChildrenOf(rows, id);
      for i := 0 to |children|
        invariant entered.visited <= visited
        invariant VisitAll(rows, entered, children, depth + 1) == VisitAll(rows, State(), children[i..], depth + 1)
      {
        assert children[i..][0] == children[i] && children[i..][1..] == children[i + 1..];
        Traverse(children[i], depth + 1);
      }
    }
  }

  /** Groups the spans under their parents. */
  method GroupChildren(rows: seq<Row>) returns (children: map<string, seq<string>>)
    ensures forall p :: ChildrenOf(rows, p) == if p in children then children[p] else []
  {
    children := map[];
    for i := 0 to |rows|
      invariant forall p :: ChildrenOf(rows[..i], p) == if p in children then children[p] else []
    {
      var rs := rows[i];
      assert rows[..i + 1][..i] == rows[..i];
      if rs.parent != "" {
        var before := if rs.parent in children then children[rs.parent] else [];
        children := children[rs.parent := before + [rs.id]];
      }
    }
    assert rows[..|rows|] == rows;
  }

  lemma IdsSoFar(rows: seq<Row>, i: nat)
    requires i < |rows|
    ensures Ids(rows[..0]) == {} && Ids(rows[..i + 1]) == Ids(rows[..i]) + {rows[i].id}
  {
    assert rows[..i + 1] == rows[..i] + [rows[i]];
  }

  lemma RootsSoFar(rows: seq<Row>, i: nat)
    requires i < |rows|
    ensures RootsAmong(rows, rows[..0]) == []
    ensures RootsAmong(rows, rows[..i + 1]) ==
      if IsRoot(rows, rows[i]) then RootsAmong(rows, rows[..i]) + [rows[i].id] else RootsAmong(rows, rows[..i])
  {
    assert rows[..i + 1][..i] == rows[..i];
  }

  method FindRoots(rows: seq<Row>) returns (rootIDs: seq<string>)
    requires rows != []
    ensures rootIDs == Roots(rows)
  {
    hide Ids, RootsAmong;
    IdsSoFar(rows, 0);
    var spanMap, hasParent: set<string> := {}, {};
    for i := 0 to |rows|
      invariant spanMap == Ids(rows[..i])
      invariant forall r :: r in rows[..i] && r.parent != "" ==> r.id in hasParent
    {
      assert rows[..i + 1] == rows[..i] + [rows[i]];
      IdsSoFar(rows, i);
      spanMap := spanMap + {rows[i].id};
      if rows[i].parent != "" {
        hasParent := hasParent + {rows[i].id};
      }
    }
    assert rows[..|rows|] == rows;
    rootIDs := [];
    RootsSoFar(rows, 0);
    for i := 0 to |rows|
      invariant rootIDs == RootsAmong(rows, rows[..i])
    {
      var rs := rows[i];
      RootsSoFar(rows, i);
      if rs.parent == "" || rs.id !in hasParent || rs.parent !in spanMap {
        rootIDs := rootIDs + [rs.id];
      }
    }
    if |rootIDs| == 0 {
      rootIDs := [rows[0].id];
    }
  }

  /** The tree part of GetTrace, on the rows it has read. */
  method OrderSpans(rows: seq<Row>) returns (ordered: seq<string>, depth: map<string, nat>)
    requires rows != []
    ensures ordered == Walk(rows).ordered && depth == Walk(rows).depth
  {
    hide Visit, Roots, ChildrenOf;
    var children := GroupChildren(rows);
    var rootIDs := FindRoots(rows);
    var b := new TraceBuilder(rows, children);
    for i := 0 to |rootIDs|
      invariant b.Valid() && b.rows == rows
      invariant VisitAll(rows, EMPTY, rootIDs, 0) == VisitAll(rows, b.State(), rootIDs[i..], 0)
    {
      assert rootIDs[i..][0] == rootIDs[i] && rootIDs[i..][1..] == rootIDs[i + 1..];
      b.Traverse(rootIDs[i], 0);
    }
    ghost var ids := IdList(rows);
    IdListAt(rows);
    for i := 0 to |rows|
      invariant b.Valid() && b.rows == rows
      invariant Walk(rows) == VisitAll(rows, b.State(), ids[i..], 0)
    {
      assert ids[i..][0] == rows[i].id && ids[i..][1..] == ids[i + 1..];
      if rows[i].id !in b.visited {
        b.Traverse(rows[i].id, 0);
      } else {
        VisitAgain(rows, b.State(), rows[i].id);
      }
    }
    return b.orderedIDs, b.depthMap;
  }

  lemma VisitAgain(rows: seq<Row>, t: Tree, id: string)
    requires id in Ids(rows) && id in t.visited
    ensures Visit(rows, t, id, 0) == t
  {
  }

  lemma {:induction false} IdListAt(rows: seq<Row>)
    ensures |IdList(rows)| == |rows| && forall i :: 0 <= i < |rows| ==> IdList(rows)[i] == rows[i].id
  {
    if rows != [] {
      IdListAt(rows[..|rows| - 1]);
    }
  }

  // ----- Every span once -----

  /** Marks, depths and order are about the same ids, each listed once. */
  ghost predicate Consistent(t: Tree) {
    && t.visited == t.depth.Keys
    && (forall x :: x in t.visited <==> x in t.ordered)
    && Distinct(t.ordered)
  }

  /** r continues t: nothing already listed moves, and what is new brings its children along. */
  ghost predicate Continues(rows: seq<Row>, t: Tree, r: Tree) {
    && t.visited <= r.visited && t.ordered <= r.ordered
    && (forall x :: x in r.visited && x !in t.visited ==> forall c :: c in ChildrenOf(rows, x) ==> c in r.visited)
  }

  lemma EnterKeeps(rows: seq<Row>, t: Tree, id: string, d: nat)
    requires Consistent(t) && id !in t.visited
    ensures Consistent(Enter(t, id, d))
  {
  }

  lemma {:induction false} VisitKeeps(rows: seq<Row>, t: Tree, id: string, d: nat)
    requires id in Ids(rows) && Consistent(t)
    ensures Consistent(Visit(rows, t, id, d)) && Continues(rows, t, Visit(rows, t, id, d))
    decreases Ids(rows) - t.visited, 0
  {
    hide Consistent, ChildrenOf;
    if id !in t.visited {
      EnterKeeps(rows, t, id, d);
      VisitAllKeeps(rows, Enter(t, id, d), ChildrenOf(rows, id), d + 1);
    }
  }

  lemma {:induction false} VisitAllKeeps(rows: seq<Row>, t: Tree, ids: seq<string>, d: nat)
    requires (forall x :: x in ids ==> x in Ids(rows)) && Consistent(t)
    ensures Consistent(VisitAll(rows, t, ids, d)) && Continues(rows, t, VisitAll(rows, t, ids, d))
    decreases Ids(rows) - t.visited, |ids|
  {
    hide Consistent, ChildrenOf;
    if ids != [] {
      assert ids[0] in ids;
      VisitKeeps(rows, t, ids[0], d);
      VisitAllKeeps(rows, Visit(rows, t, ids[0], d), ids[1..], d);
    }
  }

  /** Whatever the parents are, every distinct id of the trace is listed, exactly once, and has a
      depth. */
  lemma EverySpanOnce(rows: seq<Row>)
    requires rows != []
    ensures var t := Walk(rows);
      Distinct(t.ordered) && (forall x :: x in t.ordered <==> x in Ids(rows)) && t.depth.Keys == Ids(rows)
  {
    var t1 := VisitAll(rows, EMPTY, Roots(rows), 0);
    VisitAllKeeps(rows, EMPTY, Roots(rows), 0);
    VisitAllKeeps(rows, t1, IdList(rows), 0);
    VisitAllStaysInside(rows, EMPTY, Roots(rows), 0);
    VisitAllStaysInside(rows, t1, IdList(rows), 0);
  }

  lemma {:induction false} VisitStaysInside(rows: seq<Row>, t: Tree, id: string, d: nat)
    requires id in Ids(rows) && t.visited <= Ids(rows)
    ensures Visit(rows, t, id, d).visited <= Ids(rows)
    decreases Ids(rows) - t.visited, 0
  {
    if id !in t.visited {
      VisitAllStaysInside(rows, Enter(t, id, d), ChildrenOf(rows, id), d + 1);
    }
  }

  lemma {:induction false} VisitAllStaysInside(rows: seq<Row>, t: Tree, ids: seq<string>, d: nat)
    requires (forall x :: x in ids ==> x in Ids(rows)) && t.visited <= Ids(rows)
    ensures VisitAll(rows, t, ids, d).visited <= Ids(rows)
    decreases Ids(rows) - t.visited, |ids|
  {
    if ids != [] {
      assert ids[0] in ids;
      VisitStaysInside(rows, t, ids[0], d);
      VisitAllStaysInside(rows, Visit(rows, t, ids[0], d), ids[1..], d);
    }
  }

  // ----- Depth -----

  /** Every span has an id of its own. */
  predicate Unique(rows: seq<Row>) {
    && (forall r :: r in rows ==> r.id != "")
    && forall i, j :: 0 <= i < j < |rows| ==> rows[i].id != rows[j].id
  }

  /** The parent of a span; "" for what is no span. */
  function ParentOf(rows: seq<Row>, id: string): string {
    if rows == [] then "" else
      var n := |rows| - 1;
      if rows[n].id == id then rows[n].parent else ParentOf(rows[..n], id)
  }

  lemma {:induction false} ParentIsUnique(rows: seq<Row>, row: Row)
    requires Unique(rows) && row in rows
    ensures ParentOf(rows, row.id) == row.parent
  {
    var n := |rows| - 1;
    if rows[n] != row {
      assert rows[n].id != row.id;
      ParentIsUnique(rows[..n], row);
    }
  }

  predicate HasParent(rows: seq<Row>, id: string) {
    ParentOf(rows, id) != "" && ParentOf(rows, id) in Ids(rows)
  }

  lemma ChildHasParent(rows: seq<Row>, c: string, p: string)
    requires Unique(rows) && c in ChildrenOf(rows, p) && p in Ids(rows)
    ensures HasParent(rows, c) && ParentOf(rows, c) == p
  {
    ParentIsUnique(rows, Row(c, p));
  }

  lemma {:induction false} ChildIsListed(rows: seq<Row>, row: Row)
    requires row in rows && row.parent != ""
    ensures row.id in ChildrenOf(rows, row.parent)
  {
    var n := |rows| - 1;
    if rows[n] != row {
      ChildIsListed(rows[..n], row);
    }
  }

  /** The ancestor chain of a span reaches a root after n parents. */
  predicate Level(rows: seq<Row>, id: string, n: nat)
    decreases n
  {
    if n == 0 then id in Ids(rows) && !HasParent(rows, id)
    else HasParent(rows, id) && Level(rows, ParentOf(rows, id), n - 1)
  }

  /** Visiting the id next would give it the right depth. */
  ghost predicate Fits(rows: seq<Row>, t: Tree, id: string, d: nat) {
    id in t.visited || forall n :: Level(rows, id, n) ==> n == d
  }

  ghost predicate DepthsRight(rows: seq<Row>, t: Tree) {
    forall x, n :: x in t.depth && Level(rows, x, n) ==> t.depth[x] == n
  }

  lemma ChildrenFit(rows: seq<Row>, t: Tree, id: string, d: nat)
    requires Unique(rows) && id in Ids(rows) && Fits(rows, t, id, d) && id !in t.visited
    ensures forall c :: c in ChildrenOf(rows, id) ==> Fits(rows, Enter(t, id, d), c, d + 1)
  {
    forall c, n: nat | c in ChildrenOf(rows, id) && Level(rows, c, n) ensures n == d + 1 {
      ChildHasParent(rows, c, id);
      assert Level(rows, id, n - 1);
    }
  }

  lemma {:induction false} VisitDepths(rows: seq<Row>, t: Tree, id: string, d: nat)
    requires Unique(rows) && id in Ids(rows) && t.visited == t.depth.Keys
    requires DepthsRight(rows, t) && Fits(rows, t, id, d)
    ensures var r := Visit(rows, t, id, d); r.visited == r.depth.Keys && DepthsRight(rows, r)
    decreases Ids(rows) - t.visited, 0
  {
    hide Unique, Level;
    if id !in t.visited {
      ChildrenFit(rows, t, id, d);
      VisitAllDepths(rows, Enter(t, id, d), ChildrenOf(rows, id), d + 1);
    }
  }

  lemma {:induction false} VisitAllDepths(rows: seq<Row>, t: Tree, ids: seq<string>, d: nat)
    requires Unique(rows) && (forall x :: x in ids ==> x in Ids(rows)) && t.visited == t.depth.Keys
    requires DepthsRight(rows, t) && forall x :: x in ids ==> Fits(rows, t, x, d)
    ensures var r := VisitAll(rows, t, ids, d); r.visited == r.depth.Keys && DepthsRight(rows, r)
    decreases Ids(rows) - t.visited, |ids|
  {
    hide Unique, Level, DepthsRight;
    if ids != [] {
      assert ids[0] in ids;
      VisitDepths(rows, t, ids[0], d);
      assert forall x :: x in ids[1..] ==> x in ids && Fits(rows, t, x, d);
      VisitAllDepths(rows, Visit(rows, t, ids[0], d), ids[1..], d);
    }
  }

  lemma RootHasNoParent(rows: seq<Row>, row: Row)
    requires Unique(rows) && row in rows
    ensures IsRoot(rows, row) <==> !HasParent(rows, row.id)
  {
    ParentIsUnique(rows, row);
  }

  /** A chain that ends, ends at a root; so without roots there are no such chains. */
  lemma {:induction false} ChainsEndAtRoots(rows: seq<Row>, id: string, n: nat)
    requires rows != [] && Unique(rows) && Level(rows, id, n)
    ensures RootsAmong(rows, rows) != []
    decreases n
  {
    if n > 0 {
      ChainsEndAtRoots(rows, ParentOf(rows, id), n - 1);
    } else {
      var row :| row in rows && row.id == id;
      RootHasNoParent(rows, row);
    }
  }

  lemma RootsFit(rows: seq<Row>)
    requires rows != [] && Unique(rows)
    ensures forall x :: x in Roots(rows) ==> Fits(rows, EMPTY, x, 0)
  {
    forall x, n: nat | x in Roots(rows) && Level(rows, x, n) ensures n == 0 {
      ChainsEndAtRoots(rows, x, n);
      var row :| row in rows && row.id == x && IsRoot(rows, row);
      RootHasNoParent(rows, row);
    }
  }

  /** Everything whose chain reaches a root is reached from the roots. */
  lemma {:induction false} RootsReach(rows: seq<Row>, id: string, n: nat)
    requires rows != [] && Unique(rows) && Level(rows, id, n)
    ensures id in VisitAll(rows, EMPTY, Roots(rows), 0).visited
    decreases n
  {
    hide VisitAll, Roots, ChildrenOf, Unique;
    var row :| row in rows && row.id == id by { LevelIsSpan(rows, id, n); }
    ParentIsUnique(rows, row);
    VisitAllKeeps(rows, EMPTY, Roots(rows), 0) by { EmptyIsConsistent(); }
    if n > 0 {
      RootsReach(rows, ParentOf(rows, id), n - 1);
      ChildIsListed(rows, row);
    } else {
      ChainsEndAtRoots(rows, id, n);
      RootHasNoParent(rows, row);
      RootIsListed(rows, row);
    }
  }

  lemma EmptyIsConsistent()
    ensures Consistent(EMPTY)
  {
  }

  lemma RootIsListed(rows: seq<Row>, row: Row)
    requires row in rows && IsRoot(rows, row)
    ensures row.id in Roots(rows)
  {
  }

  lemma {:induction false} LevelIsSpan(rows: seq<Row>, id: string, n: nat)
    requires Level(rows, id, n)
    ensures id in Ids(rows)
  {
    if n > 0 {
      ParentOfSpanOnly(rows, id);
    }
  }

  lemma {:induction false} ParentOfSpanOnly(rows: seq<Row>, id: string)
    requires ParentOf(rows, id) != ""
    ensures id in Ids(rows)
  {
    var n := |rows| - 1;
    assert rows[n] in rows;
    if rows[n].id != id {
      ParentOfSpanOnly(rows[..n], id);
      var r :| r in rows[..n] && r.id == id;
      assert r in rows;
    }
  }

  /** The depth of a span whose chain reaches a root is the length of that chain. */
  lemma DepthIsChainLength(rows: seq<Row>, id: string, n: nat)
    requires rows != [] && Unique(rows) && Level(rows, id, n)
    ensures id in Walk(rows).depth && Walk(rows).depth[id] == n
  {
    hide VisitAll, Level, Unique, Roots;
    var t1 := VisitAll(rows, EMPTY, Roots(rows), 0);
    RootsFit(rows);
    VisitAllDepths(rows, EMPTY, Roots(rows), 0);
    forall x | x in IdList(rows) ensures Fits(rows, t1, x, 0) {
      forall m: nat | Level(rows, x, m) ensures x in t1.visited { RootsReach(rows, x, m); }
    }
    VisitAllDepths(rows, t1, IdList(rows), 0);
    RootsReach(rows, id, n);
    assert id in Walk(rows).visited by { LevelIsSpan(rows, id, n); EverySpanOnce(rows); }
  }

  // ----- Subtrees -----

  /** a is x's ancestor m parents up. */
  predicate Descends(rows: seq<Row>, x: string, a: string, m: nat)
    decreases m
  {
    if m == 0 then x == a else HasParent(rows, x) && Descends(rows, ParentOf(rows, x), a, m - 1)
  }

  ghost predicate Under(rows: seq<Row>, x: string, a: string) {
    exists m :: Descends(rows, x, a, m)
  }

  ghost predicate Rooted(rows: seq<Row>, x: string) {
    exists n :: Level(rows, x, n)
  }

  ghost predicate ParentsFirst(rows: seq<Row>, t: Tree) {
    forall x :: x in t.visited && Rooted(rows, x) && HasParent(rows, x) ==> ParentOf(rows, x) in t.visited
  }

  /** Visiting the id next keeps parents first. */
  ghost predicate May(rows: seq<Row>, t: Tree, id: string) {
    id in t.visited || (Rooted(rows, id) && HasParent(rows, id) ==> ParentOf(rows, id) in t.visited)
  }

  /** The subtree of a is listed, whole and alone, at positions i to j. */
  ghost predicate SegmentAt(rows: seq<Row>, t: Tree, a: string, i: nat, j: nat) {
    && i < j <= |t.ordered| && t.ordered[i] == a
    && (forall k :: 0 <= k < |t.ordered| ==> (i <= k < j <==> Under(rows, t.ordered[k], a)))
    && (forall x :: x in Ids(rows) && Under(rows, x, a) ==> x in t.visited)
  }

  ghost predicate HasSegment(rows: seq<Row>, t: Tree, a: string) {
    exists i, j :: SegmentAt(rows, t, a, i, j)
  }

  lemma {:induction false} RootedBelow(rows: seq<Row>, x: string, a: string, m: nat)
    requires Descends(rows, x, a, m) && Rooted(rows, a)
    ensures Rooted(rows, x)
    decreases m
  {
    if m > 0 {
      RootedBelow(rows, ParentOf(rows, x), a, m - 1);
      var n: nat :| Level(rows, ParentOf(rows, x), n);
      assert Level(rows, x, n + 1);
    }
  }

  lemma {:induction false} NothingUnderYet(rows: seq<Row>, t: Tree, x: string, a: string, m: nat)
    requires ParentsFirst(rows, t) && Rooted(rows, a) && a !in t.visited && Descends(rows, x, a, m)
    ensures x !in t.visited
    decreases m
  {
    hide Rooted;
    if m > 0 {
      RootedBelow(rows, x, a, m);
      NothingUnderYet(rows, t, ParentOf(rows, x), a, m - 1);
    }
  }

  lemma SpanIsChild(rows: seq<Row>, x: string)
    requires Unique(rows) && x in Ids(rows) && HasParent(rows, x)
    ensures x in ChildrenOf(rows, ParentOf(rows, x))
  {
    var row :| row in rows && row.id == x;
    ParentIsUnique(rows, row);
    ChildIsListed(rows, row);
  }

  lemma {:induction false} AllUnderReached(rows: seq<Row>, t: Tree, r: Tree, x: string, a: string, m: nat)
    requires Unique(rows) && ParentsFirst(rows, t) && Rooted(rows, a) && a !in t.visited && a in r.visited
    requires Continues(rows, t, r) && x in Ids(rows) && Descends(rows, x, a, m)
    ensures x in r.visited
    decreases m
  {
    hide Rooted, Unique, ParentsFirst;
    if m > 0 {
      var y := ParentOf(rows, x);
      NothingUnderYet(rows, t, y, a, m - 1);
      AllUnderReached(rows, t, r, y, a, m - 1);
      SpanIsChild(rows, x);
    }
  }

  lemma {:induction false} UnderChild(rows: seq<Row>, x: string, c: string, a: string, m: nat)
    requires Descends(rows, x, c, m) && HasParent(rows, c) && ParentOf(rows, c) == a
    ensures Descends(rows, x, a, m + 1)
    decreases m
  {
    if m > 0 {
      UnderChild(rows, ParentOf(rows, x), c, a, m - 1);
    } else {
      assert Descends(rows, a, a, 0);
    }
  }

  /** Once a visit has returned, what it appended is the subtree. */
  lemma VisitedSubtree(rows: seq<Row>, t: Tree, r: Tree, id: string)
    requires Unique(rows) && Consistent(t) && Consistent(r) && ParentsFirst(rows, t) && Continues(rows, t, r)
    requires Rooted(rows, id) && id !in t.visited && |t.ordered| < |r.ordered| && r.ordered[|t.ordered|] == id
    requires forall x :: x in r.visited && x !in t.visited ==> Under(rows, x, id)
    ensures HasSegment(rows, r, id)
  {
    hide Unique, Rooted, ParentsFirst;
    var i := |t.ordered|;
    forall k | 0 <= k < |r.ordered|
      ensures i <= k <==> Under(rows, r.ordered[k], id)
    {
      if k < i {
        assert r.ordered[k] == t.ordered[k];
        forall m: nat | Descends(rows, r.ordered[k], id, m) ensures false {
          NothingUnderYet(rows, t, r.ordered[k], id, m);
        }
      } else {
        assert r.ordered[k] !in t.ordered;
      }
    }
    forall x | x in Ids(rows) && Under(rows, x, id) ensures x in r.visited {
      var m: nat :| Descends(rows, x, id, m);
      AllUnderReached(rows, t, r, x, id, m);
    }
    assert SegmentAt(rows, r, id, i, |r.ordered|);
  }

  /** A finished subtree stays where it is. */
  lemma SegmentLasts(rows: seq<Row>, t: Tree, r: Tree, a: string)
    requires HasSegment(rows, t, a) && Consistent(t) && Consistent(r)
    requires t.visited <= r.visited && t.ordered <= r.ordered
    requires r.visited <= Ids(rows)
    ensures HasSegment(rows, r, a)
  {
    hide Under;
    var i: nat, j: nat :| SegmentAt(rows, t, a, i, j);
    forall k | 0 <= k < |r.ordered|
      ensures i <= k < j <==> Under(rows, r.ordered[k], a)
    {
      if k < |t.ordered| {
        assert r.ordered[k] == t.ordered[k];
      } else {
        assert r.ordered[k] !in t.ordered && r.ordered[k] in r.visited;
      }
    }
    assert SegmentAt(rows, r, a, i, j);
  }

  /** t is a state the walk can be in. */
  ghost predicate Sound(rows: seq<Row>, t: Tree) {
    Consistent(t) && ParentsFirst(rows, t) && t.visited <= Ids(rows)
  }

  lemma {:induction false} VisitSegments(rows: seq<Row>, t: Tree, id: string, d: nat)
    requires Unique(rows) && id in Ids(rows) && Sound(rows, t) && May(rows, t, id)
    ensures var r := Visit(rows, t, id, d);
      && Sound(rows, r)
      && (forall x :: x in r.visited && x !in t.visited && Rooted(rows, x) ==> HasSegment(rows, r, x))
      && (forall x :: x in r.visited && x !in t.visited ==> Under(rows, x, id))
    decreases Ids(rows) - t.visited, 0
  {
    hide Unique, Rooted, Consistent, HasSegment, Under, HasParent;
    if id !in t.visited {
      var e, kids := Enter(t, id, d), ChildrenOf(rows, id);
      var r := VisitAll(rows, e, kids, d + 1);
      EnterKeeps(rows, t, id, d);
      forall c | c in kids ensures May(rows, e, c) { ChildHasParent(rows, c, id); }
      VisitAllSegments(rows, e, kids, d + 1);
      VisitAllKeeps(rows, e, kids, d + 1);
      VisitKeeps(rows, t, id, d);
      forall x | x in r.visited && x !in t.visited ensures Under(rows, x, id) {
        NewIsUnder(rows, t, id, d, x);
      }
      assert e.ordered <= r.ordered && e.ordered[|t.ordered|] == id;
      if Rooted(rows, id) {
        VisitedSubtree(rows, t, r, id);
      }
    }
  }

  lemma NewIsUnder(rows: seq<Row>, t: Tree, id: string, d: nat, x: string)
    requires Unique(rows) && id in Ids(rows)
    requires x == id || exists c :: c in ChildrenOf(rows, id) && Under(rows, x, c)
    ensures Under(rows, x, id)
  {
    hide Unique, ChildrenOf;
    if x == id {
      assert Descends(rows, x, id, 0);
    } else {
      var c :| c in ChildrenOf(rows, id) && Under(rows, x, c);
      var m: nat :| Descends(rows, x, c, m);
      ChildHasParent(rows, c, id);
      UnderChild(rows, x, c, id, m);
    }
  }

  lemma {:induction false} VisitAllSegments(rows: seq<Row>, t: Tree, ids: seq<string>, d: nat)
    requires Unique(rows) && (forall x :: x in ids ==> x in Ids(rows)) && Sound(rows, t)
    requires forall x :: x in ids ==> May(rows, t, x)
    ensures var r := VisitAll(rows, t, ids, d);
      && Sound(rows, r)
      && (forall x :: x in r.visited && x !in t.visited && Rooted(rows, x) ==> HasSegment(rows, r, x))
      && (forall x :: x in r.visited && x !in t.visited ==> exists c :: c in ids && Under(rows, x, c))
    decreases Ids(rows) - t.visited, |ids|
  {
    hide Unique, Rooted, Consistent, HasSegment, Under, ParentsFirst, HasParent;
    if ids != [] {
      assert ids[0] in ids;
      var v := Visit(rows, t, ids[0], d);
      var r := VisitAll(rows, v, ids[1..], d);
      VisitSegments(rows, t, ids[0], d);
      assert forall x :: x in ids[1..] ==> x in ids && May(rows, t, x);
      VisitAllSegments(rows, v, ids[1..], d);
      VisitAllKeeps(rows, v, ids[1..], d);
      forall x | x in r.visited && x !in t.visited && Rooted(rows, x) ensures HasSegment(rows, r, x) {
        if x in v.visited {
          SegmentLasts(rows, v, r, x);
        }
      }
    }
  }

  lemma RootsMay(rows: seq<Row>, x: string)
    requires rows != [] && Unique(rows) && x in Roots(rows)
    ensures May(rows, EMPTY, x)
  {
    if Rooted(rows, x) {
      var n: nat :| Level(rows, x, n);
      RootsFit(rows);
      assert Fits(rows, EMPTY, x, 0);
    }
  }

  /** The subtree under every span that hangs from a root, and nothing else, fills one stretch of
      the list that begins with that span. */
  lemma SubtreesAreContiguous(rows: seq<Row>, a: string)
    requires rows != [] && Unique(rows) && Rooted(rows, a)
    ensures HasSegment(rows, Walk(rows), a)
  {
    hide VisitAll, Roots, Unique, Consistent, HasSegment, Under, May, HasParent;
    var t1 := VisitAll(rows, EMPTY, Roots(rows), 0);
    var t2 := VisitAll(rows, t1, IdList(rows), 0);
    EmptyIsConsistent();
    forall x | x in Roots(rows) ensures May(rows, EMPTY, x) { RootsMay(rows, x); }
    VisitAllSegments(rows, EMPTY, Roots(rows), 0);
    forall x | x in IdList(rows) ensures May(rows, t1, x) { LeftoversMay(rows, x); }
    VisitAllKeeps(rows, t1, IdList(rows), 0);
    VisitAllSegments(rows, t1, IdList(rows), 0);
    var n: nat :| Level(rows, a, n);
    RootsReach(rows, a, n);
    SegmentLasts(rows, t1, t2, a);
  }

  lemma LeftoversMay(rows: seq<Row>, x: string)
    requires rows != [] && Unique(rows)
    ensures May(rows, VisitAll(rows, EMPTY, Roots(rows), 0), x)
  {
    hide VisitAll, Roots, Unique;
    if Rooted(rows, x) {
      var n: nat :| Level(rows, x, n);
      RootsReach(rows, x, n);
    }
  }

  // ----- Siblings -----

  /** x is listed in front of y. */
  ghost predicate Before(t: Tree, x: string, y: string) {
    exists i, j :: 0 <= i < j < |t.ordered| && t.ordered[i] == x && t.ordered[j] == y
  }

  /** The spans with that parent are listed in the order of their rows. */
  ghost predicate KidsInOrder(rows: seq<Row>, t: Tree, p: string) {
    forall i, j :: 0 <= i < j < |rows| && rows[i].parent == p && rows[j].parent == p
      ==> Before(t, rows[i].id, rows[j].id)
  }

  lemma BeforeLasts(t: Tree, r: Tree, x: string, y: string)
    requires Before(t, x, y) && t.ordered <= r.ordered
    ensures Before(r, x, y)
  {
    var i, j :| 0 <= i < j < |t.ordered| && t.ordered[i] == x && t.ordered[j] == y;
    assert r.ordered[i] == x && r.ordered[j] == y;
  }

  lemma KidsStayInOrder(rows: seq<Row>, t: Tree, r: Tree, p: string)
    requires KidsInOrder(rows, t, p) && t.ordered <= r.ordered
    ensures KidsInOrder(rows, r, p)
  {
    forall i, j | 0 <= i < j < |rows| && rows[i].parent == p && rows[j].parent == p
      ensures Before(r, rows[i].id, rows[j].id)
    {
      BeforeLasts(t, r, rows[i].id, rows[j].id);
    }
  }

  lemma ListedLater(t: Tree, r: Tree, x: string, y: string)
    requires t.ordered <= r.ordered && x in t.ordered && y in r.ordered && y !in t.ordered
    ensures Before(r, x, y)
  {
    var i :| 0 <= i < |t.ordered| && t.ordered[i] == x;
    var j :| 0 <= j < |r.ordered| && r.ordered[j] == y;
    assert r.ordered[i] == x;
    assert forall k :: 0 <= k < |t.ordered| ==> r.ordered[k] in t.ordered;
  }

  lemma {:induction false} VisitAllInTwo(rows: seq<Row>, t: Tree, ids: seq<string>, b: nat, d: nat)
    requires b <= |ids| && forall x :: x in ids ==> x in Ids(rows)
    ensures VisitAll(rows, t, ids, d) == VisitAll(rows, VisitAll(rows, t, ids[..b], d), ids[b..], d)
    decreases b
  {
    hide Visit;
    if b > 0 {
      assert ids[0] in ids && ids[..b][1..] == ids[1..][..b - 1] && ids[1..][b - 1..] == ids[b..];
      VisitAllInTwo(rows, Visit(rows, t, ids[0], d), ids[1..], b - 1, d);
    } else {
      assert ids[0..] == ids;
    }
  }

  /** Of a list the walk goes through, what is not below anything in front of it is listed behind
      all that. */
  lemma ListedInTurn(rows: seq<Row>, t: Tree, ids: seq<string>, d: nat, a: nat, b: nat)
    requires Unique(rows) && (forall x :: x in ids ==> x in Ids(rows)) && Sound(rows, t)
    requires (forall x :: x in ids ==> May(rows, t, x)) && a < b < |ids| && ids[b] !in t.visited
    requires forall c :: c in ids[..b] ==> !Under(rows, ids[b], c)
    ensures Before(VisitAll(rows, t, ids, d), ids[a], ids[b])
  {
    hide VisitAll, Unique, May, Under, ParentsFirst;
    assert forall x :: x in ids[..b] ==> x in ids;
    assert forall x :: x in ids[b..] ==> x in ids;
    var half, r := VisitAll(rows, t, ids[..b], d), VisitAll(rows, t, ids, d);
    VisitAllInTwo(rows, t, ids, b, d);
    VisitAllSegments(rows, t, ids[..b], d);
    VisitAllKeeps(rows, half, ids[b..], d);
    assert ids[..b][a] == ids[a] && ids[b..][0] == ids[b];
    assert ids[a] in half.visited && ids[b] in r.visited;
    ListedLater(half, r, ids[a], ids[b]);
  }

  lemma {:induction false} LevelsAgree(rows: seq<Row>, x: string, a: string, m: nat, n: nat, k: nat)
    requires Descends(rows, x, a, m) && Level(rows, x, n) && Level(rows, a, k)
    ensures n == k + m
    decreases m, n
  {
    if m > 0 {
      LevelsAgree(rows, ParentOf(rows, x), a, m - 1, n - 1, k);
    } else if n > 0 {
      assert Descends(rows, ParentOf(rows, x), ParentOf(rows, x), 0);
      LevelsAgree(rows, ParentOf(rows, x), ParentOf(rows, x), 0, n - 1, k - 1);
    }
  }

  /** Spans on one level are not below each other. */
  lemma SameLevelApart(rows: seq<Row>, x: string, y: string, n: nat)
    requires Level(rows, x, n) && Level(rows, y, n) && Under(rows, x, y)
    ensures x == y
  {
    var m: nat :| Descends(rows, x, y, m);
    LevelsAgree(rows, x, y, m, n, n);
  }

  lemma {:induction false} ChildrenInRowOrder(rows: seq<Row>, p: string, i: nat, j: nat) returns (a: nat, b: nat)
    requires i < j < |rows| && rows[i].parent == p == rows[j].parent && p != ""
    ensures a < b < |ChildrenOf(rows, p)|
    ensures ChildrenOf(rows, p)[a] == rows[i].id && ChildrenOf(rows, p)[b] == rows[j].id
  {
    var n := |rows| - 1;
    if j < n {
      a, b := ChildrenInRowOrder(rows[..n], p, i, j);
    } else {
      assert rows[..n][i] == rows[i];
      ChildIsListed(rows[..n], rows[i]);
      a :| 0 <= a < |ChildrenOf(rows[..n], p)| && ChildrenOf(rows[..n], p)[a] == rows[i].id;
      b := |ChildrenOf(rows[..n], p)|;
    }
  }

  lemma {:induction false} ChildrenAreDistinct(rows: seq<Row>, p: string)
    requires Unique(rows)
    ensures Distinct(ChildrenOf(rows, p))
  {
    if rows != [] {
      var n := |rows| - 1;
      ChildrenAreDistinct(rows[..n], p);
      assert Row(rows[n].id, p) !in rows[..n];
    }
  }

  /** A visit lists the children of the span in their order. */
  lemma OwnKidsInOrder(rows: seq<Row>, t: Tree, id: string, d: nat)
    requires Unique(rows) && id in Ids(rows) && Sound(rows, t) && id !in t.visited && May(rows, t, id)
    requires Rooted(rows, id)
    ensures KidsInOrder(rows, VisitAll(rows, Enter(t, id, d), ChildrenOf(rows, id), d + 1), id)
  {
    hide VisitAll, ChildrenOf, Unique, Sound, Before, Level, May, Enter;
    var n: nat :| Level(rows, id, n);
    forall i, j | 0 <= i < j < |rows| && rows[i].parent == id && rows[j].parent == id
      ensures Before(VisitAll(rows, Enter(t, id, d), ChildrenOf(rows, id), d + 1), rows[i].id, rows[j].id)
    {
      TwoKidsInOrder(rows, t, id, d, n, i, j);
    }
  }

  lemma TwoKidsInOrder(rows: seq<Row>, t: Tree, id: string, d: nat, n: nat, i: nat, j: nat)
    requires Unique(rows) && id in Ids(rows) && Sound(rows, t) && id !in t.visited && May(rows, t, id)
    requires Level(rows, id, n) && i < j < |rows| && rows[i].parent == id == rows[j].parent
    ensures Before(VisitAll(rows, Enter(t, id, d), ChildrenOf(rows, id), d + 1), rows[i].id, rows[j].id)
  {
    hide VisitAll, ChildrenOf, Unique, Sound, Before, Level, May, Enter, Under, Distinct, Rooted, Ids;
    SpanIsNamed(rows, id);
    var e, kids := Enter(t, id, d), ChildrenOf(rows, id);
    EnterIsSound(rows, t, id, d);
    ChildrenAreDistinct(rows, id);
    forall c | c in kids ensures c !in e.visited && May(rows, e, c) && Level(rows, c, n + 1) {
      ChildIsNew(rows, t, id, c, n, d);
    }
    var a, b := ChildrenInRowOrder(rows, id, i, j);
    OneLevelApart(rows, kids, b, n + 1);
    ListedInTurn(rows, e, kids, d + 1, a, b);
  }

  lemma SpanIsNamed(rows: seq<Row>, id: string)
    requires Unique(rows) && id in Ids(rows)
    ensures id != ""
  {
  }

  lemma OneLevelApart(rows: seq<Row>, ids: seq<string>, b: nat, n: nat)
    requires Distinct(ids) && b < |ids| && forall c :: c in ids ==> Level(rows, c, n)
    ensures forall c :: c in ids[..b] ==> !Under(rows, ids[b], c)
  {
    hide Under, Level;
    forall c | c in ids[..b] ensures !Under(rows, ids[b], c) {
      if Under(rows, ids[b], c) {
        SameLevelApart(rows, ids[b], c, n);
      }
    }
  }

  lemma ChildIsNew(rows: seq<Row>, t: Tree, id: string, c: string, n: nat, d: nat)
    requires Unique(rows) && id in Ids(rows) && Sound(rows, t) && id !in t.visited && Level(rows, id, n)
    requires c in ChildrenOf(rows, id)
    ensures Level(rows, c, n + 1) && Rooted(rows, c)
    ensures c !in Enter(t, id, d).visited && May(rows, Enter(t, id, d), c)
  {
    ChildHasParent(rows, c, id);
    assert Level(rows, c, n + 1);
    assert Descends(rows, id, id, 0);
    if c == id {
      LevelsAgree(rows, id, id, 0, n, n + 1);
    }
  }

  lemma EnterIsSound(rows: seq<Row>, t: Tree, id: string, d: nat)
    requires Sound(rows, t) && id in Ids(rows) && id !in t.visited && May(rows, t, id)
    ensures Sound(rows, Enter(t, id, d))
  {
    EnterKeeps(rows, t, id, d);
  }

  lemma {:induction false} VisitKids(rows: seq<Row>, t: Tree, id: string, d: nat)
    requires Unique(rows) && id in Ids(rows) && Sound(rows, t) && May(rows, t, id)
    ensures var r := Visit(rows, t, id, d);
      forall x :: x in r.visited && x !in t.visited && Rooted(rows, x) ==> KidsInOrder(rows, r, x)
    decreases Ids(rows) - t.visited, 0
  {
    hide Unique, Rooted, Consistent, KidsInOrder, HasParent;
    if id !in t.visited {
      var e, kids := Enter(t, id, d), ChildrenOf(rows, id);
      EnterIsSound(rows, t, id, d);
      forall c | c in kids ensures May(rows, e, c) { ChildHasParent(rows, c, id); }
      VisitAllKids(rows, e, kids, d + 1);
      if Rooted(rows, id) {
        OwnKidsInOrder(rows, t, id, d);
      }
    }
  }

  lemma {:induction false} VisitAllKids(rows: seq<Row>, t: Tree, ids: seq<string>, d: nat)
    requires Unique(rows) && (forall x :: x in ids ==> x in Ids(rows)) && Sound(rows, t)
    requires forall x :: x in ids ==> May(rows, t, x)
    ensures var r := VisitAll(rows, t, ids, d);
      forall x :: x in r.visited && x !in t.visited && Rooted(rows, x) ==> KidsInOrder(rows, r, x)
    decreases Ids(rows) - t.visited, |ids|
  {
    hide Unique, Rooted, Consistent, KidsInOrder, ParentsFirst, HasParent, HasSegment, Under;
    if ids != [] {
      assert ids[0] in ids;
      var v := Visit(rows, t, ids[0], d);
      var r := VisitAll(rows, v, ids[1..], d);
      VisitKids(rows, t, ids[0], d);
      VisitSegments(rows, t, ids[0], d);
      assert forall x :: x in ids[1..] ==> x in ids && May(rows, v, x);
      VisitAllKids(rows, v, ids[1..], d);
      VisitAllKeeps(rows, v, ids[1..], d);
      forall x | x in r.visited && x !in t.visited && Rooted(rows, x) ensures KidsInOrder(rows, r, x) {
        if x in v.visited {
          KidsStayInOrder(rows, v, r, x);
        }
      }
    }
  }

  lemma RootsOfFront(rows: seq<Row>, some: seq<Row>)
    requires some != []
    ensures var n := |some| - 1;
      var before := RootsAmong(rows, some[..n]);
      RootsAmong(rows, some) == if IsRoot(rows, some[n]) then before + [some[n].id] else before
  {
  }

  lemma {:induction false} RootsInRowOrder(rows: seq<Row>, some: seq<Row>, i: nat, j: nat) returns (a: nat, b: nat)
    requires i < j < |some| && IsRoot(rows, some[i]) && IsRoot(rows, some[j])
    ensures a < b < |RootsAmong(rows, some)|
    ensures RootsAmong(rows, some)[a] == some[i].id && RootsAmong(rows, some)[b] == some[j].id
  {
    hide RootsAmong, IsRoot;
    var n := |some| - 1;
    RootsOfFront(rows, some);
    if j < n {
      a, b := RootsInRowOrder(rows, some[..n], i, j);
    } else {
      assert some[..n][i] == some[i] && some[i] in some[..n];
      a :| 0 <= a < |RootsAmong(rows, some[..n])| && RootsAmong(rows, some[..n])[a] == some[i].id;
      b := |RootsAmong(rows, some[..n])|;
    }
  }

  lemma LastRootIsNew(rows: seq<Row>, some: seq<Row>)
    requires some != [] && forall i, j :: 0 <= i < j < |some| ==> some[i].id != some[j].id
    ensures some[|some| - 1].id !in RootsAmong(rows, some[..|some| - 1])
  {
    hide IsRoot;
    var n := |some| - 1;
    forall row | row in some[..n] ensures row.id != some[n].id {
      var k :| 0 <= k < n && some[..n][k] == row;
      assert some[k].id == row.id;
    }
  }

  lemma DistinctMore(ids: seq<string>, x: string)
    requires Distinct(ids) && x !in ids
    ensures Distinct(ids + [x])
  {
  }

  lemma {:induction false} RootsAreDistinct(rows: seq<Row>, some: seq<Row>)
    requires forall i, j :: 0 <= i < j < |some| ==> some[i].id != some[j].id
    ensures Distinct(RootsAmong(rows, some))
  {
    if some != [] {
      var n := |some| - 1;
      RootsAreDistinct(rows, some[..n]);
      RootsOfFront(rows, some);
      LastRootIsNew(rows, some);
      hide IsRoot, RootsAmong;
      DistinctMore(RootsAmong(rows, some[..n]), some[n].id);
    }
  }

  lemma LeftoversKeep(rows: seq<Row>)
    requires rows != [] && Unique(rows)
    ensures var t1 := VisitAll(rows, EMPTY, Roots(rows), 0);
      Sound(rows, t1) && Continues(rows, t1, Walk(rows)) && Sound(rows, EMPTY)
      && (forall x :: x in Roots(rows) ==> May(rows, EMPTY, x))
      && (forall x :: x in t1.visited ==> exists c :: c in Roots(rows) && Under(rows, x, c))
  {
    hide VisitAll, Roots, Unique, Consistent, May, HasSegment, Under;
    EmptyIsConsistent();
    forall x | x in Roots(rows) ensures May(rows, EMPTY, x) { RootsMay(rows, x); }
    VisitAllSegments(rows, EMPTY, Roots(rows), 0);
    VisitAllKeeps(rows, VisitAll(rows, EMPTY, Roots(rows), 0), IdList(rows), 0);
  }

  lemma RootsAreOnLevelZero(rows: seq<Row>, x: string)
    requires rows != [] && Unique(rows) && x in RootsAmong(rows, rows)
    ensures Level(rows, x, 0) && Roots(rows) == RootsAmong(rows, rows)
  {
    var row :| row in rows && row.id == x && IsRoot(rows, row);
    RootHasNoParent(rows, row);
  }

  lemma RowsOfRoots(rows: seq<Row>, i: nat)
    requires rows != [] && Unique(rows) && i < |rows| && IsRoot(rows, rows[i])
    ensures rows[i].id in RootsAmong(rows, rows)
  {
  }

  lemma WalkGoesOn(rows: seq<Row>)
    requires rows != [] && Unique(rows)
    ensures VisitAll(rows, EMPTY, Roots(rows), 0).ordered <= Walk(rows).ordered
  {
    hide VisitAll, Roots, Unique, Sound, May, Under;
    LeftoversKeep(rows);
  }

  lemma TwoRootsInOrder(rows: seq<Row>, i: nat, j: nat)
    requires Unique(rows) && i < j < |rows| && IsRoot(rows, rows[i]) && IsRoot(rows, rows[j])
    ensures Before(VisitAll(rows, EMPTY, Roots(rows), 0), rows[i].id, rows[j].id)
  {
    hide VisitAll, RootsAmong, Unique, Sound, IsRoot, Under, Distinct, May, Before, Level;
    RowsOfRoots(rows, i);
    RootsAreOnLevelZero(rows, rows[i].id);
    var a, b := RootsInRowOrder(rows, rows, i, j);
    UniqueRows(rows);
    RootsAreDistinct(rows, rows);
    var ids := Roots(rows);
    hide Roots;
    forall c | c in ids ensures Level(rows, c, 0) {
      RootsAreOnLevelZero(rows, c);
    }
    OneLevelApart(rows, ids, b, 0);
    RootsStart(rows);
    ListedInTurn(rows, EMPTY, ids, 0, a, b);
  }

  lemma RootsStart(rows: seq<Row>)
    requires rows != [] && Unique(rows)
    ensures Sound(rows, EMPTY) && forall x :: x in Roots(rows) ==> x in Ids(rows) && May(rows, EMPTY, x)
  {
    hide VisitAll, Unique, May, Roots;
    EmptyIsConsistent();
    forall x | x in Roots(rows) ensures May(rows, EMPTY, x) { RootsMay(rows, x); }
  }

  lemma KidsOfRooted(rows: seq<Row>, i: nat, j: nat)
    requires Unique(rows) && i < j < |rows|
    requires rows[i].parent == rows[j].parent && Rooted(rows, rows[i].parent)
    ensures Before(VisitAll(rows, EMPTY, Roots(rows), 0), rows[i].id, rows[j].id)
  {
    hide VisitAll, Roots, Unique, Before, Sound, May;
    RootsStart(rows);
    RootedIsReached(rows, rows[i].parent);
    VisitAllKids(rows, EMPTY, Roots(rows), 0);
    assert KidsInOrder(rows, VisitAll(rows, EMPTY, Roots(rows), 0), rows[i].parent);
  }

  /** Two spans with one parent that hangs from a root, and two roots, are listed in the order of
      their rows. */
  lemma SiblingsInRowOrder(rows: seq<Row>, i: nat, j: nat)
    requires Unique(rows) && i < j < |rows|
    requires (IsRoot(rows, rows[i]) && IsRoot(rows, rows[j]))
      || (rows[i].parent == rows[j].parent && Rooted(rows, rows[i].parent))
    ensures Before(Walk(rows), rows[i].id, rows[j].id)
  {
    hide VisitAll, Roots, Unique, Before, IsRoot, Rooted, Walk;
    var t1 := VisitAll(rows, EMPTY, Roots(rows), 0);
    if IsRoot(rows, rows[i]) && IsRoot(rows, rows[j]) {
      TwoRootsInOrder(rows, i, j);
    } else {
      KidsOfRooted(rows, i, j);
    }
    WalkGoesOn(rows);
    BeforeLasts(t1, Walk(rows), rows[i].id, rows[j].id);
  }

  lemma UniqueRows(rows: seq<Row>)
    requires Unique(rows)
    ensures forall i, j :: 0 <= i < j < |rows| ==> rows[i].id != rows[j].id
  {
  }

  /** What hangs from a root is listed before what does not. */
  lemma RootedComeFirst(rows: seq<Row>, x: string, y: string)
    requires Unique(rows) && x in Ids(rows) && y in Ids(rows) && Rooted(rows, x) && !Rooted(rows, y)
    ensures Before(Walk(rows), x, y)
  {
    hide VisitAll, Roots, Unique, Rooted, Before, Walk;
    var t1 := VisitAll(rows, EMPTY, Roots(rows), 0);
    WalkGoesOn(rows);
    RootedIsReached(rows, x);
    RootedHasRoots(rows, x);
    OnlyRootedReached(rows);
    Listed(rows);
    ListedLater(t1, Walk(rows), x, y);
  }

  lemma Listed(rows: seq<Row>)
    requires rows != [] && Unique(rows)
    ensures var t1 := VisitAll(rows, EMPTY, Roots(rows), 0);
      forall x :: x in t1.visited <==> x in t1.ordered
    ensures forall x :: x in Walk(rows).ordered <==> x in Ids(rows)
  {
    hide VisitAll, Roots, Unique, Walk;
    EmptyIsConsistent();
    VisitAllKeeps(rows, EMPTY, Roots(rows), 0);
    EverySpanOnce(rows);
  }

  lemma OnlyRootedReached(rows: seq<Row>)
    requires rows != [] && Unique(rows) && RootsAmong(rows, rows) != []
    ensures forall x :: x in VisitAll(rows, EMPTY, Roots(rows), 0).visited ==> Rooted(rows, x)
  {
    hide VisitAll, Roots, RootsAmong, Unique, Under, May, Sound, Rooted, Level, Continues, Walk;
    LeftoversKeep(rows);
    forall x | x in VisitAll(rows, EMPTY, Roots(rows), 0).visited ensures Rooted(rows, x) {
      var c :| c in Roots(rows) && Under(rows, x, c);
      RootsAreTheseRoots(rows);
      RootsAreOnLevelZero(rows, c);
      LevelZeroIsRooted(rows, c);
      UnderRooted(rows, x, c);
    }
  }

  lemma RootsAreTheseRoots(rows: seq<Row>)
    requires rows != [] && RootsAmong(rows, rows) != []
    ensures Roots(rows) == RootsAmong(rows, rows)
  {
  }

  lemma UnderRooted(rows: seq<Row>, y: string, c: string)
    requires Under(rows, y, c) && Rooted(rows, c)
    ensures Rooted(rows, y)
  {
    var m: nat :| Descends(rows, y, c, m);
    RootedBelow(rows, y, c, m);
  }

  lemma {:induction false} EntersFirst(rows: seq<Row>, t: Tree, ids: seq<string>, k: nat, d: nat)
    requires (forall x :: x in ids ==> x in Ids(rows)) && Consistent(t)
    requires k < |ids| && ids[k] !in t.visited && forall q :: 0 <= q < k ==> ids[q] in t.visited
    ensures Enter(t, ids[k], d).ordered <= VisitAll(rows, t, ids, d).ordered
    decreases k
  {
    hide Consistent, ChildrenOf;
    assert ids[0] in ids;
    if k > 0 {
      EntersFirst(rows, t, ids[1..], k - 1, d);
    } else {
      EnterKeeps(rows, t, ids[0], d);
      VisitAllKeeps(rows, Enter(t, ids[0], d), ChildrenOf(rows, ids[0]), d + 1);
      VisitKeeps(rows, t, ids[0], d);
      VisitAllKeeps(rows, Visit(rows, t, ids[0], d), ids[1..], d);
    }
  }

  lemma FirstLeftoverEnters(rows: seq<Row>, i: nat) returns (t: Tree)
    requires Unique(rows) && i < |rows| && !Rooted(rows, rows[i].id)
    requires forall k :: 0 <= k < i ==> Rooted(rows, rows[k].id)
    ensures t.ordered + [rows[i].id] <= Walk(rows).ordered
    ensures forall x :: x in t.ordered ==> Rooted(rows, x)
  {
    hide VisitAll, Unique, Continues, ChildrenOf, Rooted, RootsAmong;
    EmptyIsConsistent();
    if RootsAmong(rows, rows) == [] {
      if i > 0 {
        RootedHasRoots(rows, rows[0].id);
      }
      t := EMPTY;
      EntersFirst(rows, EMPTY, Roots(rows), 0, 0);
      WalkGoesOn(rows);
    } else {
      t := VisitAll(rows, EMPTY, Roots(rows), 0);
      hide Roots;
      OnlyRootedReached(rows);
      forall q | 0 <= q < i ensures rows[q].id in t.visited {
        RootedIsReached(rows, rows[q].id);
      }
      IdListAt(rows);
      VisitAllKeeps(rows, EMPTY, Roots(rows), 0);
      EntersFirst(rows, t, IdList(rows), i, 0);
    }
  }

  lemma LevelZeroIsRooted(rows: seq<Row>, c: string)
    requires Level(rows, c, 0)
    ensures Rooted(rows, c)
  {
  }

  lemma RootedHasRoots(rows: seq<Row>, x: string)
    requires rows != [] && Unique(rows) && Rooted(rows, x)
    ensures RootsAmong(rows, rows) != []
  {
    var n: nat :| Level(rows, x, n);
    ChainsEndAtRoots(rows, x, n);
  }

  lemma RootedIsReached(rows: seq<Row>, x: string)
    requires rows != [] && Unique(rows) && Rooted(rows, x)
    ensures x in VisitAll(rows, EMPTY, Roots(rows), 0).visited
  {
    var n: nat :| Level(rows, x, n);
    RootsReach(rows, x, n);
  }

  /** The first span in row order that hangs from no root comes right behind those that do. */
  lemma FirstLeftoverComesNext(rows: seq<Row>, i: nat, y: string)
    requires Unique(rows) && i < |rows| && !Rooted(rows, rows[i].id)
    requires forall k :: 0 <= k < i ==> Rooted(rows, rows[k].id)
    requires y in Ids(rows) && !Rooted(rows, y) && y != rows[i].id
    ensures Before(Walk(rows), rows[i].id, y)
  {
    hide Walk, Unique, Rooted;
    EverySpanOnce(rows);
    var t := FirstLeftoverEnters(rows, i);
    var next := Tree({}, map[], t.ordered + [rows[i].id]);
    assert next.ordered[|t.ordered|] == rows[i].id;
    ListedLater(next, Walk(rows), rows[i].id, y);
  }

  // ----- Depth of every span -----

  /** p is a parent of x, listed, and one level above d. */
  predicate IsAbove(rows: seq<Row>, t: Tree, p: string, x: string, d: nat) {
    Row(x, p) in rows && p in t.depth && d == t.depth[p] + 1 && p in t.ordered
  }

  /** A span may be listed at depth 0, or one below a parent that is listed. */
  ghost predicate MayHang(rows: seq<Row>, t: Tree, x: string, d: nat) {
    d == 0 || exists p :: IsAbove(rows, t, p, x, d)
  }

  /** Depths of listed spans stay. */
  ghost predicate KeepsDepths(t: Tree, r: Tree) {
    t.ordered <= r.ordered && forall x :: x in t.depth ==> x in r.depth && r.depth[x] == t.depth[x]
  }

  /** The k-th listed span is at depth 0, or one below a parent that is listed before it. */
  ghost predicate Hangs(rows: seq<Row>, t: Tree, k: nat)
    requires k < |t.ordered|
  {
    var x := t.ordered[k];
    && x in t.depth
    && (t.depth[x] == 0 || exists j :: 0 <= j < k && IsAbove(rows, t, t.ordered[j], x, t.depth[x]))
  }

  ghost predicate AllHang(rows: seq<Row>, t: Tree) {
    forall k :: 0 <= k < |t.ordered| ==> Hangs(rows, t, k)
  }

  lemma MayHangLater(rows: seq<Row>, t: Tree, r: Tree, x: string, d: nat)
    requires MayHang(rows, t, x, d) && KeepsDepths(t, r)
    ensures MayHang(rows, r, x, d)
  {
    if d != 0 {
      var p :| IsAbove(rows, t, p, x, d);
      assert IsAbove(rows, r, p, x, d);
    }
  }

  lemma EnterHangs(rows: seq<Row>, t: Tree, id: string, d: nat)
    requires Consistent(t) && AllHang(rows, t) && id !in t.visited && MayHang(rows, t, id, d)
    ensures AllHang(rows, Enter(t, id, d)) && KeepsDepths(t, Enter(t, id, d))
    ensures forall c :: c in ChildrenOf(rows, id) ==> MayHang(rows, Enter(t, id, d), c, d + 1)
  {
    var e := Enter(t, id, d);
    forall k | 0 <= k < |e.ordered| ensures Hangs(rows, e, k) {
      if k < |t.ordered| {
        assert Hangs(rows, t, k) && e.ordered[k] == t.ordered[k];
        if t.depth[t.ordered[k]] != 0 {
          var j :| 0 <= j < k && IsAbove(rows, t, t.ordered[j], t.ordered[k], t.depth[t.ordered[k]]);
          assert e.ordered[j] == t.ordered[j] && IsAbove(rows, e, e.ordered[j], e.ordered[k], e.depth[e.ordered[k]]);
        }
      } else if d != 0 {
        var p :| IsAbove(rows, t, p, id, d);
        var j :| 0 <= j < |t.ordered| && t.ordered[j] == p;
        assert e.ordered[j] == p && IsAbove(rows, e, p, id, d);
      }
    }
    forall c | c in ChildrenOf(rows, id) ensures MayHang(rows, e, c, d + 1) {
      assert e.ordered[|t.ordered|] == id;
      assert IsAbove(rows, e, id, c, d + 1);
    }
  }

  lemma {:induction false} VisitHangs(rows: seq<Row>, t: Tree, id: string, d: nat)
    requires id in Ids(rows) && Consistent(t) && AllHang(rows, t) && MayHang(rows, t, id, d)
    ensures AllHang(rows, Visit(rows, t, id, d)) && KeepsDepths(t, Visit(rows, t, id, d))
    decreases Ids(rows) - t.visited, 0
  {
    hide Consistent, ChildrenOf, AllHang, MayHang;
    if id !in t.visited {
      EnterKeeps(rows, t, id, d);
      EnterHangs(rows, t, id, d);
      VisitAllHangs(rows, Enter(t, id, d), ChildrenOf(rows, id), d + 1);
    }
  }

  lemma {:induction false} VisitAllHangs(rows: seq<Row>, t: Tree, ids: seq<string>, d: nat)
    requires (forall x :: x in ids ==> x in Ids(rows)) && Consistent(t) && AllHang(rows, t)
    requires forall x :: x in ids ==> MayHang(rows, t, x, d)
    ensures AllHang(rows, VisitAll(rows, t, ids, d)) && KeepsDepths(t, VisitAll(rows, t, ids, d))
    decreases Ids(rows) - t.visited, |ids|
  {
    hide Consistent, ChildrenOf, AllHang, MayHang;
    if ids != [] {
      assert ids[0] in ids;
      var v := Visit(rows, t, ids[0], d);
      VisitKeeps(rows, t, ids[0], d);
      VisitHangs(rows, t, ids[0], d);
      forall x | x in ids[1..] ensures x in ids && MayHang(rows, v, x, d) {
        MayHangLater(rows, t, v, x, d);
      }
      VisitAllHangs(rows, v, ids[1..], d);
    }
  }

  /** Whatever the parents, every listed span is at depth 0, or one below a parent listed before it. */
  lemma EverySpanHangs(rows: seq<Row>)
    requires rows != []
    ensures AllHang(rows, Walk(rows))
  {
    hide VisitAll, Roots, Consistent;
    EmptyIsConsistent();
    var t1 := VisitAll(rows, EMPTY, Roots(rows), 0);
    VisitAllKeeps(rows, EMPTY, Roots(rows), 0);
    VisitAllHangs(rows, EMPTY, Roots(rows), 0);
    VisitAllHangs(rows, t1, IdList(rows), 0);
  }

  // ----- Repeated queries -----

  /** What the detector looks at: whether a listed span is a database call, and its trimmed name. */
  datatype Call = Call(id: string, isDB: bool, name: string)

  /** The first position from j on that does not repeat the query at position a. */
  function RunEnd(calls: seq<Call>, a: nat, j: nat): (e: nat)
    requires a < j <= |calls|
    ensures j <= e <= |calls|
    ensures forall k :: j <= k < e ==> calls[k].isDB && calls[k].name == calls[a].name
    ensures e < |calls| ==> !(calls[e].isDB && calls[e].name == calls[a].name)
    decreases |calls| - j
  {
    if j < |calls| && calls[j].isDB && calls[j].name == calls[a].name then RunEnd(calls, a, j + 1) else j
  }

  /** The runs of three or more equal queries from position a on, where a run may begin. */
  function Issues(calls: seq<Call>, a: nat): seq<(nat, nat)>
    requires a <= |calls|
    decreases |calls| - a
  {
    if a == |calls| then []
    else if !calls[a].isDB then Issues(calls, a + 1)
    else
      var e := RunEnd(calls, a, a + 1);
      (if e - a >= 3 then [(a, e)] else []) + Issues(calls, e)
  }

  function IdsFrom(calls: seq<Call>, a: nat, e: nat): (ids: seq<string>)
    requires a <= e <= |calls|
    ensures |ids| == e - a && forall k :: 0 <= k < e - a ==> ids[k] == calls[a + k].id
  {
    seq(e - a, k requires 0 <= k < e - a => calls[a + k].id)
  }

  /** Closes the run being collected, if it is long enough to report. */
  method CloseRun(run: seq<string>, issues: seq<seq<string>>, suspects: set<string>)
    returns (issues': seq<seq<string>>, suspects': set<string>)
    ensures issues' == if |run| >= 3 then issues + [run] else issues
    ensures suspects' == if |run| >= 3 then suspects + (set x | x in run) else suspects
  {
    issues', suspects' := issues, suspects;
    if |run| >= 3 {
      for i := 0 to |run|
        invariant suspects' == suspects + set x | x in run[..i]
      {
        suspects' := suspects' + {run[i]};
        assert run[..i + 1] == run[..i] + [run[i]];
      }
      assert run[..|run|] == run;
      issues' := issues + [run];
    }
  }

  /** The issues as lists of ids, and the ids they mention. */
  function Reports(calls: seq<Call>, runs: seq<(nat, nat)>): seq<seq<string>>
    requires forall r :: r in runs ==> r.0 <= r.1 <= |calls|
  {
    seq(|runs|, k requires 0 <= k < |runs| => assert runs[k] in runs; IdsFrom(calls, runs[k].0, runs[k].1))
  }

  ghost predicate MentionedExactly(suspects: set<string>, issues: seq<seq<string>>) {
    forall x :: x in suspects <==> exists k :: 0 <= k < |issues| && x in issues[k]
  }

  lemma MentionMore(suspects: set<string>, issues: seq<seq<string>>, run: seq<string>)
    requires MentionedExactly(suspects, issues)
    ensures MentionedExactly(suspects + (set x | x in run), issues + [run])
  {
    var more := issues + [run];
    var marked := suspects + set y | y in run;
    forall x | x in marked
      ensures exists k :: 0 <= k < |more| && x in more[k]
    {
      if x in suspects {
        var k :| 0 <= k < |issues| && x in issues[k];
        assert x in more[k];
      }
      if x in run {
        assert x in more[|issues|];
      }
    }
  }

  lemma {:induction false} IssuesAreRuns(calls: seq<Call>, a: nat)
    requires a <= |calls|
    ensures forall r :: r in Issues(calls, a) ==> a <= r.0 && r.0 + 3 <= r.1 <= |calls|
    decreases |calls| - a
  {
    if a < |calls| {
      IssuesAreRuns(calls, if calls[a].isDB then RunEnd(calls, a, a + 1) else a + 1);
    }
  }

  lemma NoReports(calls: seq<Call>)
    ensures Reports(calls, []) == [] && MentionedExactly({}, [])
  {
  }

  lemma OneCall(calls: seq<Call>, i: nat)
    requires i < |calls|
    ensures IdsFrom(calls, i, i + 1) == [calls[i].id]
  {
  }

  lemma OneCallMore(calls: seq<Call>, a: nat, i: nat)
    requires a <= i < |calls|
    ensures IdsFrom(calls, a, i + 1) == IdsFrom(calls, a, i) + [calls[i].id]
  {
  }

  /** The loop over the ordered spans. */
  method DetectRuns(calls: seq<Call>) returns (issues: seq<seq<string>>, suspects: set<string>)
    ensures forall r :: r in Issues(calls, 0) ==> r.0 <= r.1 <= |calls|
    ensures issues == Reports(calls, Issues(calls, 0))
    ensures MentionedExactly(suspects, issues)
  {
    hide Reports, IdsFrom, MentionedExactly;
    IssuesAreRuns(calls, 0);
    NoReports(calls);
    issues, suspects := [], {};
    var open := false;
    var name := "";
    var run: seq<string> := [];
    ghost var start := 0;
    ghost var done: seq<(nat, nat)> := [];
    for i := 0 to |calls|
      invariant !open ==> run == [] && Issues(calls, 0) == done + Issues(calls, i)
      invariant open ==> Collecting(calls, start, i, name, run) && Issues(calls, 0) == done + Issues(calls, start)
      invariant forall r :: r in done ==> r.0 <= r.1 <= |calls|
      invariant issues == Reports(calls, done) && MentionedExactly(suspects, issues)
    {
      var sp := calls[i];
      if sp.isDB && open && name == sp.name {
        OneCallMore(calls, start, i);
        run := run + [sp.id];
      } else {
        if open {
          MentionMore(suspects, issues, run);
          issues, suspects := CloseRun(run, issues, suspects);
          done := CloseSpec(calls, start, i, done, run);
        } else {
          assert !sp.isDB ==> Issues(calls, i) == Issues(calls, i + 1);
        }
        open := sp.isDB;
        name := sp.name;
        run := if sp.isDB then [sp.id] else [];
        start := i;
        OneCall(calls, i);
      }
    }
    if open {
      MentionMore(suspects, issues, run);
      issues, suspects := CloseRun(run, issues, suspects);
      done := CloseSpec(calls, start, |calls|, done, run);
    }
    assert done == Issues(calls, 0);
  }

  /** The run that began at start has reached position i. */
  ghost predicate Collecting(calls: seq<Call>, start: nat, i: nat, name: string, run: seq<string>) {
    && start < i <= |calls| && calls[start].isDB && calls[start].name == name
    && run == IdsFrom(calls, start, i) && RunEnd(calls, start, start + 1) == RunEnd(calls, start, i)
  }

  lemma CloseSpec(calls: seq<Call>, start: nat, i: nat, done: seq<(nat, nat)>, run: seq<string>)
    returns (more: seq<(nat, nat)>)
    requires exists name :: Collecting(calls, start, i, name, run)
    requires RunEnd(calls, start, i) == i && Issues(calls, 0) == done + Issues(calls, start)
    requires forall r :: r in done ==> r.0 <= r.1 <= |calls|
    ensures forall r :: r in more ==> r.0 <= r.1 <= |calls|
    ensures Issues(calls, 0) == more + Issues(calls, i)
    ensures Reports(calls, more) == if |run| >= 3 then Reports(calls, done) + [run] else Reports(calls, done)
  {
    more := if i - start >= 3 then done + [(start, i)] else done;
  }

  /** Positions a to e are one query over and over, and nothing beside them repeats it. */
  predicate MaximalRun(calls: seq<Call>, a: nat, e: nat) {
    && a < e <= |calls|
    && (forall k :: a <= k < e ==> calls[k].isDB && calls[k].name == calls[a].name)
    && (e < |calls| ==> !(calls[e].isDB && calls[e].name == calls[a].name))
    && (a > 0 ==> !(calls[a - 1].isDB && calls[a - 1].name == calls[a].name))
  }

  predicate MayBegin(calls: seq<Call>, a: nat) {
    a <= |calls| && (0 < a < |calls| && calls[a].isDB ==> !(calls[a - 1].isDB && calls[a - 1].name == calls[a].name))
  }

  /** The reported runs are the maximal runs of at least three equal queries, all of them. */
  lemma {:induction false} IssuesAreMaximalRuns(calls: seq<Call>, a: nat, i: nat, e: nat)
    requires MayBegin(calls, a)
    ensures (i, e) in Issues(calls, a) <==> a <= i && i + 3 <= e && MaximalRun(calls, i, e)
    decreases |calls| - a
  {
    if a < |calls| {
      if !calls[a].isDB {
        IssuesAreMaximalRuns(calls, a + 1, i, e);
      } else {
        var f := RunEnd(calls, a, a + 1);
        IssuesAreMaximalRuns(calls, f, i, e);
        assert MaximalRun(calls, a, f);
      }
    }
  }

  /** A listed span is under suspicion exactly if it stands among three equal queries in a row. */
  lemma SuspectsAreTriples(calls: seq<Call>, k: nat)
    requires k < |calls|
    ensures (exists i, e :: (i, e) in Issues(calls, 0) && i <= k < e) <==>
      (exists j: nat :: j <= k < j + 3 <= |calls| && Triple(calls, j))
  {
    forall i, e | (i, e) in Issues(calls, 0) && i <= k < e
      ensures exists j: nat :: j <= k < j + 3 <= |calls| && Triple(calls, j)
    {
      IssuesAreMaximalRuns(calls, 0, i, e);
      var j: nat := if k + 3 <= e then k else e - 3;
      assert Triple(calls, j);
    }
    forall j: nat | j <= k < j + 3 <= |calls| && Triple(calls, j)
      ensures exists i, e :: (i, e) in Issues(calls, 0) && i <= k < e
    {
      var i := RunStart(calls, j);
      var e := RunEnd(calls, i, j + 3);
      assert MaximalRun(calls, i, e);
      IssuesAreMaximalRuns(calls, 0, i, e);
    }
  }

  predicate OneAfterTheOther(runs: seq<(nat, nat)>) {
    forall i, j :: 0 <= i < j < |runs| ==> runs[i].1 <= runs[j].0
  }

  lemma RunInFront(a: nat, e: nat, runs: seq<(nat, nat)>)
    requires OneAfterTheOther(runs) && forall r :: r in runs ==> e <= r.0
    ensures OneAfterTheOther([(a, e)] + runs)
  {
  }

  /** Runs are reported in the order in which they are listed. */
  lemma {:induction false} IssuesInOrder(calls: seq<Call>, a: nat)
    requires a <= |calls|
    ensures OneAfterTheOther(Issues(calls, a))
    decreases |calls| - a
  {
    hide OneAfterTheOther;
    if a == |calls| {
      NoRunsInOrder();
    } else if !calls[a].isDB {
      IssuesInOrder(calls, a + 1);
    } else {
      var e := RunEnd(calls, a, a + 1);
      IssuesInOrder(calls, e);
      IssuesAreRuns(calls, e);
      RunInFront(a, e, Issues(calls, e));
      assert [] + Issues(calls, e) == Issues(calls, e);
    }
  }

  lemma NoRunsInOrder()
    ensures OneAfterTheOther([])
  {
  }

  predicate Triple(calls: seq<Call>, j: nat)
    requires j + 3 <= |calls|
  {
    forall k :: j <= k < j + 3 ==> calls[k].isDB && calls[k].name == calls[j].name
  }

  lemma {:induction false} RunStart(calls: seq<Call>, j: nat) returns (i: nat)
    requires j < |calls| && calls[j].isDB
    ensures i <= j && forall k :: i <= k <= j ==> calls[k].isDB && calls[k].name == calls[j].name
    ensures i > 0 ==> !(calls[i - 1].isDB && calls[i - 1].name == calls[j].name)
  {
    i := j;
    while i > 0 && calls[i - 1].isDB && calls[i - 1].name == calls[j].name
      invariant i <= j && forall k :: i <= k <= j ==> calls[k].isDB && calls[k].name == calls[j].name
    {
      i := i - 1;
    }
  }
}
