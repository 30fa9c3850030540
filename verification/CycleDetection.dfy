/** The deadlock detector's cycle test (`has_cycle`): an iterative three-colour
depth-first search over an adjacency map.

The search pushes a node once per edge that reaches it while it is still White,
so a node can sit on the stack several times, and a node that is already Black
is coloured Gray again when one of those older entries is popped. The
correctness argument therefore does not use the colours alone: `done` numbers
the nodes in the order they are finished for the first time.
*/
module CycleDetection {
  import opened Collections

  type Pid = int
  type Graph = map<Pid, seq<Pid>>
  type Edges = set<(Pid, Pid)>
  datatype Color = White | Gray | Black
  type Colors = map<Pid, Color>

  /** A stack entry: the node, and whether its children are finished. */
  type Entry = (Pid, bool)

  // --- What a cycle is ------------------------------------------------------

  ghost function EdgesOf(g: Graph): Edges {
    set u, v | u in g && v in g[u] :: (u, v)
  }

  ghost predicate Edge(e: Edges, x: Pid, y: Pid) {
    (x, y) in e
  }

  ghost predicate IsWalk(e: Edges, p: seq<Pid>) {
    |p| >= 2 && forall i :: 0 <= i < |p| - 1 ==> Edge(e, p[i], p[i + 1])
  }

  ghost predicate WalkFromTo(e: Edges, x: Pid, y: Pid, p: seq<Pid>) {
    IsWalk(e, p) && p[0] == x && p[|p| - 1] == y
  }

  /** A walk of at least one edge leads from `x` to `y`. */
  ghost predicate Reaches(e: Edges, x: Pid, y: Pid) {
    exists p :: WalkFromTo(e, x, y, p)
  }

  ghost predicate Cyclic(e: Edges) {
    exists x :: Reaches(e, x, x)
  }

  lemma EdgeReaches(e: Edges, x: Pid, y: Pid)
    requires Edge(e, x, y)
    ensures Reaches(e, x, y)
  {
    assert WalkFromTo(e, x, y, [x, y]);
  }

  lemma ReachesTransitive(e: Edges, x: Pid, y: Pid, z: Pid)
    requires Reaches(e, x, y) && Reaches(e, y, z)
    ensures Reaches(e, x, z)
  {
    var p :| WalkFromTo(e, x, y, p);
    var q :| WalkFromTo(e, y, z, q);
    var r := p + q[1..];
    forall i | 0 <= i < |r| - 1
      ensures Edge(e, r[i], r[i + 1])
    {
      if i < |p| - 1 {
      } else {
        assert r[i] == q[i - |p| + 1];
      }
    }
    assert WalkFromTo(e, x, z, r);
  }

  /** Every edge goes down in `rank`. */
  ghost predicate Descends(e: Edges, rank: map<Pid, nat>) {
    forall x, y :: Edge(e, x, y) ==> x in rank && y in rank && rank[y] < rank[x]
  }

  /** Along a walk in a graph whose edges all go down in rank, the rank goes down. */
  lemma {:induction false} WalkDescends(e: Edges, rank: map<Pid, nat>, p: seq<Pid>, k: nat)
    requires IsWalk(e, p) && k < |p| - 1
    requires Descends(e, rank)
    ensures p[0] in rank && p[k + 1] in rank && rank[p[k + 1]] < rank[p[0]]
  {
    assert Edge(e, p[k], p[k + 1]);
    if k > 0 {
      WalkDescends(e, rank, p, k - 1);
    }
  }

  lemma RankedIsAcyclic(e: Edges, rank: map<Pid, nat>)
    requires Descends(e, rank)
    ensures !Cyclic(e)
  {
    if Cyclic(e) {
      var x :| Reaches(e, x, x);
      var p :| WalkFromTo(e, x, x, p);
      WalkDescends(e, rank, p, |p| - 2);
      assert false;
    }
  }

  // --- The state of the search ----------------------------------------------

  function ColorOf(color: Colors, x: Pid): Color {
    if x in color then color[x] else White
  }

  function Neighbours(g: Graph, x: Pid): seq<Pid> {
    if x in g then g[x] else []
  }

  ghost function Nodes(g: Graph): set<Pid> {
    g.Keys + set u, v | u in g && v in g[u] :: v
  }

  /** A finished-children entry occurs nowhere above itself. */
  ghost predicate OpenOnce(stack: seq<Entry>) {
    forall i, j :: 0 <= i < j < |stack| && stack[i].1 ==> stack[i].0 != stack[j].0
  }

  ghost predicate GrayIsOpen(color: Colors, stack: seq<Entry>) {
    forall x :: ColorOf(color, x) == Gray <==> (x, true) in stack
  }

  ghost predicate BlackIsDone(color: Colors, done: map<Pid, nat>) {
    && (forall x :: ColorOf(color, x) == Black ==> x in done)
    && (forall x :: x in done ==> ColorOf(color, x) != White)
  }

  /** Every edge out of a finished node goes to a node finished earlier. */
  ghost predicate Ranked(g: Graph, done: map<Pid, nat>) {
    && (forall x :: x in done ==> done[x] < |done|)
    && (forall x :: x in done ==> ChildrenEarlier(g, done, x))
  }

  ghost predicate ChildrenEarlier(g: Graph, done: map<Pid, nat>, x: Pid)
    requires x in done
  {
    forall y :: y in Neighbours(g, x) ==> y in done && done[y] < done[x]
  }

  /** A child of an open node is finished or still above it on the stack. */
  ghost predicate ChildrenKept(g: Graph, stack: seq<Entry>, done: map<Pid, nat>) {
    forall i, y :: 0 <= i < |stack| && stack[i].1 && y in Neighbours(g, stack[i].0) ==>
      y in done || Above(stack, i, y)
  }

  ghost predicate Above(stack: seq<Entry>, i: int, y: Pid) {
    exists j :: i < j < |stack| && 0 <= j && stack[j].0 == y
  }

  /** Everything above an open node can be reached from it. */
  ghost predicate OpenReaches(g: Graph, stack: seq<Entry>) {
    forall i, j :: 0 <= i < j < |stack| && stack[i].1 ==>
      Reaches(EdgesOf(g), stack[i].0, stack[j].0)
  }

  ghost predicate StackInGraph(g: Graph, stack: seq<Entry>) {
    forall i :: 0 <= i < |stack| ==> stack[i].0 in Nodes(g)
  }

  ghost predicate SearchInv(g: Graph, color: Colors, stack: seq<Entry>, done: map<Pid, nat>) {
    && OpenOnce(stack)
    && GrayIsOpen(color, stack)
    && BlackIsDone(color, done)
    && Ranked(g, done)
    && ChildrenKept(g, stack, done)
    && OpenReaches(g, stack)
    && StackInGraph(g, stack)
  }

  // --- One step: close an open node -----------------------------------------

  ghost function Finish(done: map<Pid, nat>, x: Pid): map<Pid, nat> {
    if x in done then done else done[x := |done|]
  }

  lemma CloseNodeGray(color: Colors, stack: seq<Entry>, x: Pid)
    requires OpenOnce(stack) && GrayIsOpen(color, stack)
    requires |stack| > 0 && stack[|stack| - 1] == (x, true)
    ensures GrayIsOpen(color[x := Black], stack[..|stack| - 1])
  {
    var rest := stack[..|stack| - 1];
    assert stack == rest + [(x, true)];
    assert (x, true) !in rest;
  }

  lemma CloseNodeChildren(g: Graph, stack: seq<Entry>, done: map<Pid, nat>, x: Pid)
    requires ChildrenKept(g, stack, done)
    requires |stack| > 0 && stack[|stack| - 1] == (x, true)
    ensures forall y :: y in Neighbours(g, x) ==> y in done
    ensures ChildrenKept(g, stack[..|stack| - 1], Finish(done, x))
  {
    var n := |stack| - 1;
    var rest := stack[..n];
    forall y | y in Neighbours(g, x)
      ensures y in done
    {
      assert stack[n].1 && y in Neighbours(g, stack[n].0);
    }
    forall i, y | 0 <= i < |rest| && rest[i].1 && y in Neighbours(g, rest[i].0)
      ensures y in Finish(done, x) || Above(rest, i, y)
    {
      assert stack[i] == rest[i];
      if y !in Finish(done, x) {
        var j :| i < j < |stack| && 0 <= j && stack[j].0 == y;
        assert rest[j].0 == y;
      }
    }
  }

  lemma CloseNode(g: Graph, color: Colors, stack: seq<Entry>, done: map<Pid, nat>, x: Pid)
    requires SearchInv(g, color, stack, done)
    requires |stack| > 0 && stack[|stack| - 1] == (x, true)
    ensures SearchInv(g, color[x := Black], stack[..|stack| - 1], Finish(done, x))
  {
    CloseNodeGray(color, stack, x);
    CloseNodeChildren(g, stack, done, x);
    FinishRanked(g, done, x);
  }

  lemma FinishRanked(g: Graph, done: map<Pid, nat>, x: Pid)
    requires Ranked(g, done)
    requires forall y :: y in Neighbours(g, x) ==> y in done
    ensures Ranked(g, Finish(done, x))
  {
    if x !in done {
      var done' := done[x := |done|];
      assert done'.Keys == done.Keys + {x};
      assert |done'| == |done| + 1;
    }
  }

  // --- One step: open a node and push its White children ----------------------

  /** The entries pushed for `children`: the White ones, in order. */
  function WhiteEntries(color: Colors, children: seq<Pid>): (r: seq<Entry>)
    ensures forall y :: (y, false) in r <==> y in children && ColorOf(color, y) == White
    ensures forall i :: 0 <= i < |r| ==> !r[i].1 && r[i].0 in children
  {
    if children == [] then []
    else
      var last := children[|children| - 1];
      var init := WhiteEntries(color, children[..|children| - 1]);
      assert children == children[..|children| - 1] + [last];
      if ColorOf(color, last) == White then init + [(last, false)] else init
  }

  ghost function Opened(stack: seq<Entry>): seq<Entry>
    requires |stack| > 0
  {
    stack[..|stack| - 1] + [(stack[|stack| - 1].0, true)]
  }

  lemma OpenedEntries(color: Colors, stack: seq<Entry>, kids: seq<Pid>, x: Pid)
    requires |stack| > 0 && stack[|stack| - 1] == (x, false)
    ensures var stack' := Opened(stack) + WhiteEntries(color, kids); var n := |stack| - 1;
      && |stack'| >= |stack|
      && stack'[n] == (x, true)
      && (forall i :: 0 <= i < n ==> stack'[i] == stack[i])
      && (forall i :: n < i < |stack'| ==>
            !stack'[i].1 && stack'[i].0 in kids && ColorOf(color, stack'[i].0) == White)
  {
    var pushed := WhiteEntries(color, kids);
    var stack' := Opened(stack) + pushed;
    var n := |stack| - 1;
    forall i | n < i < |stack'|
      ensures !stack'[i].1 && stack'[i].0 in kids && ColorOf(color, stack'[i].0) == White
    {
      assert stack'[i] == pushed[i - n - 1];
      assert (stack'[i].0, false) in pushed;
    }
  }

  lemma OpenNodeColors(g: Graph, color: Colors, stack: seq<Entry>, done: map<Pid, nat>, x: Pid)
    requires SearchInv(g, color, stack, done)
    requires |stack| > 0 && stack[|stack| - 1] == (x, false)
    ensures ColorOf(color, x) != Gray
    ensures var color' := color[x := Gray]; var stack' := Opened(stack) + WhiteEntries(color', Neighbours(g, x));
      OpenOnce(stack') && GrayIsOpen(color', stack') && BlackIsDone(color', done)
  {
    var n := |stack| - 1;
    var color' := color[x := Gray];
    var kids := Neighbours(g, x);
    var stack' := Opened(stack) + WhiteEntries(color', kids);
    OpenedEntries(color', stack, kids, x);
    if (x, true) in stack {
      assert false;
    }
    forall i, j | 0 <= i < j < |stack'| && stack'[i].1
      ensures stack'[i].0 != stack'[j].0
    {
      if j <= n {
        assert stack[i].1;
      } else if i < n {
        assert (stack[i].0, true) in stack;
        assert ColorOf(color, stack[i].0) == Gray;
      }
    }
    forall z
      ensures ColorOf(color', z) == Gray <==> (z, true) in stack'
    {
      if (z, true) in stack' {
        var i :| 0 <= i < |stack'| && stack'[i] == (z, true);
        assert i <= n;
      }
      if z != x && (z, true) in stack {
        var i :| 0 <= i < |stack| && stack[i] == (z, true);
        assert stack'[i] == (z, true);
      }
      assert stack'[n] == (x, true);
    }
  }

  lemma OpenNodeChildren(g: Graph, color: Colors, stack: seq<Entry>, done: map<Pid, nat>, x: Pid)
    requires SearchInv(g, color, stack, done)
    requires |stack| > 0 && stack[|stack| - 1] == (x, false)
    requires forall y :: y in Neighbours(g, x) ==> ColorOf(color[x := Gray], y) != Gray
    ensures ChildrenKept(g, Opened(stack) + WhiteEntries(color[x := Gray], Neighbours(g, x)), done)
  {
    var n := |stack| - 1;
    var color' := color[x := Gray];
    var pushed := WhiteEntries(color', Neighbours(g, x));
    var stack' := Opened(stack) + pushed;
    OpenedEntries(color', stack, Neighbours(g, x), x);
    forall i, y | 0 <= i < |stack'| && stack'[i].1 && y in Neighbours(g, stack'[i].0)
      ensures y in done || Above(stack', i, y)
    {
      if i < n {
        assert stack[i].1;
        if y !in done {
          var j :| i < j < |stack| && 0 <= j && stack[j].0 == y;
          assert stack'[j].0 == y;
        }
      } else if ColorOf(color', y) == White {
        var k :| 0 <= k < |pushed| && pushed[k] == (y, false);
        assert stack'[n + 1 + k].0 == y;
      }
    }
  }

  lemma OpenNodePaths(g: Graph, color: Colors, stack: seq<Entry>, x: Pid)
    requires OpenReaches(g, stack) && StackInGraph(g, stack)
    requires |stack| > 0 && stack[|stack| - 1] == (x, false)
    ensures OpenReaches(g, Opened(stack) + WhiteEntries(color, Neighbours(g, x)))
    ensures StackInGraph(g, Opened(stack) + WhiteEntries(color, Neighbours(g, x)))
  {
    var n := |stack| - 1;
    var e := EdgesOf(g);
    var stack' := Opened(stack) + WhiteEntries(color, Neighbours(g, x));
    OpenedEntries(color, stack, Neighbours(g, x), x);
    forall i, j | 0 <= i < j < |stack'| && stack'[i].1
      ensures Reaches(e, stack'[i].0, stack'[j].0)
    {
      if j > n {
        EdgeReaches(e, x, stack'[j].0);
        if i < n {
          assert stack[i].1;
          ReachesTransitive(e, stack[i].0, x, stack'[j].0);
        }
      }
    }
  }

  lemma OpenNode(g: Graph, color: Colors, stack: seq<Entry>, done: map<Pid, nat>, x: Pid)
    requires SearchInv(g, color, stack, done)
    requires |stack| > 0 && stack[|stack| - 1] == (x, false)
    requires forall y :: y in Neighbours(g, x) ==> ColorOf(color[x := Gray], y) != Gray
    ensures SearchInv(g, color[x := Gray], Opened(stack) + WhiteEntries(color[x := Gray], Neighbours(g, x)), done)
  {
    OpenNodeColors(g, color, stack, done, x);
    OpenNodeChildren(g, color, stack, done, x);
    OpenNodePaths(g, color[x := Gray], stack, x);
  }

  /** An edge from the node being opened to a Gray node closes a cycle. */
  lemma GrayChildIsCycle(g: Graph, color: Colors, stack: seq<Entry>, done: map<Pid, nat>, x: Pid, y: Pid)
    requires SearchInv(g, color, stack, done)
    requires |stack| > 0 && stack[|stack| - 1] == (x, false)
    requires y in Neighbours(g, x) && ColorOf(color[x := Gray], y) == Gray
    ensures Cyclic(EdgesOf(g))
  {
    var e := EdgesOf(g);
    EdgeReaches(e, x, y);
    if y != x {
      var i :| 0 <= i < |stack| && stack[i] == (y, true);
      assert Reaches(e, stack[i].0, stack[|stack| - 1].0);
      ReachesTransitive(e, y, x, y);
    }
  }

  // --- Termination ------------------------------------------------------------

  ghost function Whites(g: Graph, color: Colors): set<Pid> {
    set x | x in Nodes(g) && ColorOf(color, x) == White
  }

  ghost function Unfinished(stack: seq<Entry>): nat {
    if stack == [] then 0
    else Unfinished(stack[..|stack| - 1]) + (if stack[|stack| - 1].1 then 0 else 1)
  }

  lemma {:induction false} NoWhiteEntries(color: Colors, children: seq<Pid>)
    requires forall i :: 0 <= i < |children| ==> ColorOf(color, children[i]) != White
    ensures WhiteEntries(color, children) == []
  {
    if children != [] {
      NoWhiteEntries(color, children[..|children| - 1]);
    }
  }

  lemma ReopenPushesNothing(g: Graph, color: Colors, done: map<Pid, nat>, x: Pid)
    requires Ranked(g, done) && BlackIsDone(color, done) && x in done
    ensures WhiteEntries(color[x := Gray], Neighbours(g, x)) == []
  {
    var kids := Neighbours(g, x);
    assert ChildrenEarlier(g, done, x);
    forall i | 0 <= i < |kids|
      ensures ColorOf(color[x := Gray], kids[i]) != White
    {
      var y := kids[i];
      assert y in Neighbours(g, x) && y in done;
    }
    NoWhiteEntries(color[x := Gray], kids);
  }

  /** Opening a White node shrinks the White set; opening a Black node again
      pushes nothing, so the number of unfinished entries drops. */
  lemma OpenProgress(g: Graph, color: Colors, stack: seq<Entry>, done: map<Pid, nat>, x: Pid)
    requires SearchInv(g, color, stack, done)
    requires |stack| > 0 && stack[|stack| - 1] == (x, false)
    ensures var color' := color[x := Gray];
      || |Whites(g, color')| < |Whites(g, color)|
      || (|Whites(g, color')| == |Whites(g, color)|
          && Unfinished(Opened(stack) + WhiteEntries(color', Neighbours(g, x))) < Unfinished(stack))
  {
    assert ColorOf(color, x) != Gray by { OpenNodeColors(g, color, stack, done, x); }
    var color' := color[x := Gray];
    assert stack[|stack| - 1].0 in Nodes(g);
    if ColorOf(color, x) == White {
      assert Whites(g, color) == Whites(g, color') + {x};
    } else {
      assert Whites(g, color) == Whites(g, color');
      ReopenPushesNothing(g, color, done, x);
      assert Opened(stack) + [] == Opened(stack);
      assert Opened(stack)[..|stack| - 1] == stack[..|stack| - 1];
    }
  }

  // --- The search -------------------------------------------------------------

  lemma WhiteSnoc(color: Colors, children: seq<Pid>, next: Pid)
    ensures WhiteEntries(color, children + [next]) ==
            WhiteEntries(color, children) + if ColorOf(color, next) == White then [(next, false)] else []
  {
    var all := children + [next];
    assert all[..|all| - 1] == children && all[|all| - 1] == next;
  }

  /** The inner loop over the out-neighbours of the node just opened. */
  method PushChildren(color: Colors, stack: seq<Entry>, children: seq<Pid>)
    returns (found: bool, stack': seq<Entry>)
    ensures found <==> exists y :: y in children && ColorOf(color, y) == Gray
    ensures !found ==> stack' == stack + WhiteEntries(color, children)
  {
    stack' := stack;
    for i := 0 to |children|
      invariant stack' == stack + WhiteEntries(color, children[..i])
      invariant forall y :: y in children[..i] ==> ColorOf(color, y) != Gray
    {
      var next := children[i];
      assert children[..i + 1] == children[..i] + [next];
      WhiteSnoc(color, children[..i], next);
      match ColorOf(color, next)
      case Gray => return true, stack';
      case White => stack' := stack' + [(next, false)];
      case Black =>
    }
    assert children[..|children|] == children;
    found := false;
  }

  /** One depth-first search from `start`. */
  method SearchFrom(g: Graph, color0: Colors, ghost done0: map<Pid, nat>, start: Pid)
    returns (found: bool, color: Colors, ghost done: map<Pid, nat>)
    requires start in g && ColorOf(color0, start) == White
    requires SearchInv(g, color0, [], done0)
    ensures found ==> Cyclic(EdgesOf(g))
    ensures !found ==> SearchInv(g, color, [], done) && start in done && done0.Keys <= done.Keys
  {
    color, done := color0, done0;
    var stack: seq<Entry> := [(start, false)];
    while |stack| > 0
      invariant SearchInv(g, color, stack, done)
      invariant done0.Keys <= done.Keys
      invariant start in done || (|stack| > 0 && stack[0].0 == start)
      decreases |Whites(g, color)|, Unfinished(stack), |stack|
    {
      var (node, processed) := stack[|stack| - 1];
      var rest := stack[..|stack| - 1];
      if processed {
        CloseNode(g, color, stack, done, node);
        CloseProgress(g, color, stack, node, done);
        color := color[node := Black];
        done := Finish(done, node);
        stack := rest;
      } else {
        OpenProgress(g, color, stack, done, node);
        var color' := color[node := Gray];
        var hit, stack' := PushChildren(color', rest + [(node, true)], Neighbours(g, node));
        if hit {
          ghost var y :| y in Neighbours(g, node) && ColorOf(color', y) == Gray;
          GrayChildIsCycle(g, color, stack, done, node, y);
          return true, color, done;
        }
        OpenNode(g, color, stack, done, node);
        color, stack := color', stack';
      }
    }
    found := false;
  }

  lemma CloseProgress(g: Graph, color: Colors, stack: seq<Entry>, x: Pid, done: map<Pid, nat>)
    requires SearchInv(g, color, stack, done)
    requires |stack| > 0 && stack[|stack| - 1] == (x, true)
    ensures Whites(g, color[x := Black]) == Whites(g, color)
    ensures Unfinished(stack[..|stack| - 1]) == Unfinished(stack)
  {
    assert (x, true) in stack;
  }

  lemma AllDoneIsAcyclic(g: Graph, done: map<Pid, nat>)
    requires Ranked(g, done)
    requires forall x :: x in g ==> x in done
    ensures !Cyclic(EdgesOf(g))
  {
    RankedIsAcyclic(EdgesOf(g), done);
  }

  lemma NoGray(color: Colors, done: map<Pid, nat>, x: Pid)
    requires GrayIsOpen(color, []) && BlackIsDone(color, done) && ColorOf(color, x) != White
    ensures x in done
  {
    assert (x, true) !in [];
  }

  /** `has_cycle`: answers true exactly when the graph has a directed cycle. */
  method HasCycle(g: Graph) returns (cycle: bool)
    ensures cycle <==> Cyclic(EdgesOf(g))
  {
    var color: Colors := map node | node in g :: White;
    ghost var done: map<Pid, nat> := map[];
    var todo: set<Pid> := g.Keys;
    while todo != {}
      invariant todo <= g.Keys
      invariant SearchInv(g, color, [], done)
      invariant forall x :: x in g && x !in todo ==> x in done
      decreases todo
    {
      var start := Pick(todo);
      todo := todo - {start};
      if ColorOf(color, start) == White {
        var found;
        found, color, done := SearchFrom(g, color, done, start);
        if found {
          return true;
        }
      } else {
        NoGray(color, done, start);
      }
    }
    AllDoneIsAcyclic(g, done);
    cycle := false;
  }
}
