/** The import-cycle finder: a recursive three-colour depth-first search over the import graph. */
module ImportCycles {
  import opened Bags
  import opened Text

  type Node = string
  type Graph = map<Node, seq<Node>>

  /** A node absent from the map is unvisited. */
  datatype Mark = Visiting | Done

  // ---------- the graph and its cycles ----------

  function Imports(g: Graph, n: Node): seq<Node> { if n in g then g[n] else [] }

  ghost function Universe(g: Graph): set<Node> {
    g.Keys + set f, n | f in g && n in g[f] :: n
  }

  /** Each import list comes from a `Set`, so it repeats nothing. */
  ghost predicate WellFormed(g: Graph) { forall f | f in g :: Distinct(g[f]) }

  ghost predicate Edge(g: Graph, n: Node, next: Node) { next in Imports(g, n) }

  ghost predicate IsWalk(g: Graph, p: seq<Node>) {
    forall i, j :: 0 <= i && j == i + 1 < |p| ==> Edge(g, p[i], p[j])
  }

  ghost predicate IsClosedWalk(g: Graph, p: seq<Node>) {
    |p| >= 2 && IsWalk(g, p) && p[0] == p[|p| - 1]
  }

  ghost predicate Cyclic(g: Graph) { exists p :: IsClosedWalk(g, p) }

  /** A closed walk that repeats no node except first = last. */
  ghost predicate IsSimpleCycle(g: Graph, c: seq<Node>) {
    IsClosedWalk(g, c) && Distinct(c[..|c| - 1])
  }

  // ---------- what the search knows ----------

  /** The stack is a simple path of imports whose nodes are exactly the visiting ones. */
  ghost predicate StackOk(g: Graph, state: map<Node, Mark>, stack: seq<Node>, depth: map<Node, nat>) {
    && IsWalk(g, stack)
    && (forall n :: n in stack <==> n in state && state[n] == Visiting)
    && depth.Keys == state.Keys <= Universe(g)
    && (forall i :: 0 <= i < |stack| ==> stack[i] in depth && depth[stack[i]] == i)
  }

  /** The imports that close the recorded cycles. */
  ghost function Closings(cycles: seq<seq<Node>>): set<(Node, Node)> {
    if cycles == [] then {} else Closings(cycles[..|cycles| - 1]) + {BackEdge(cycles[|cycles| - 1])}
  }

  /** Apart from the imports in `cuts`, every import of a finished node finished strictly earlier. */
  ghost predicate Ranked(g: Graph, cuts: set<(Node, Node)>, state: map<Node, Mark>, rank: map<Node, nat>, clock: nat) {
    && (forall u | u in state && state[u] == Done :: u in rank && rank[u] < clock)
    && (forall u, w | u in state && state[u] == Done && Edge(g, u, w) && (u, w) !in cuts ::
          w in state && state[w] == Done && w in rank && rank[w] < rank[u])
  }

  /** A recorded cycle runs down consecutive levels of the search tree. */
  ghost predicate FollowsTree(c: seq<Node>, depth: map<Node, nat>) {
    && |c| >= 2 && c[0] in depth
    && forall i :: 0 <= i < |c| - 1 ==> c[i] in depth && depth[c[i]] == depth[c[0]] + i
  }

  /** The import that closes a recorded cycle. */
  function BackEdge(c: seq<Node>): (Node, Node) {
    if |c| < 2 then ("", "") else (c[|c| - 2], c[0])
  }

  ghost predicate CyclesOk(g: Graph, cycles: seq<seq<Node>>, depth: map<Node, nat>) {
    && (forall c | c in cycles :: IsSimpleCycle(g, c) && FollowsTree(c, depth))
    && (forall i, j :: 0 <= i < j < |cycles| ==> BackEdge(cycles[i]) != BackEdge(cycles[j]))
  }

  /** The recorded back edges out of `u` all come from the part `seen` of its import list. */
  ghost predicate SourcesBelow(cycles: seq<seq<Node>>, u: Node, seen: seq<Node>) {
    forall c | c in cycles && BackEdge(c).0 == u :: BackEdge(c).1 in seen
  }

  /** The imports of `u` seen so far lead to finished nodes or close a recorded cycle. */
  ghost predicate AllDone(state: map<Node, Mark>, cycles: seq<seq<Node>>, u: Node, seen: seq<Node>) {
    forall w | w in seen && (u, w) !in Closings(cycles) :: w in state && state[w] == Done
  }

  /**
   * Old marks and cycles stay. Nodes marked since, other than those in `pending`, are finished, and the new
   * cycles close at nodes that were unmarked before.
   */
  ghost predicate Progress(state0: map<Node, Mark>, cycles0: seq<seq<Node>>,
                           state: map<Node, Mark>, cycles: seq<seq<Node>>, pending: set<Node>) {
    && (forall n | n in state0 :: n in state && state[n] == state0[n])
    && (forall n | n in state && n !in state0 && n !in pending :: state[n] == Done)
    && cycles0 <= cycles
    && (forall k :: |cycles0| <= k < |cycles| ==> BackEdge(cycles[k]).0 !in state0)
  }

  /** What the verifier tracks beside the program's own state. */
  datatype Notes = Notes(rank: map<Node, nat>, clock: nat, depth: map<Node, nat>)

  ghost predicate SearchOk(g: Graph, state: map<Node, Mark>, stack: seq<Node>, cycles: seq<seq<Node>>, notes: Notes) {
    && StackOk(g, state, stack, notes.depth)
    && Ranked(g, Closings(cycles), state, notes.rank, notes.clock)
    && CyclesOk(g, cycles, notes.depth)
  }

  lemma CyclesOkDeeper(g: Graph, cycles: seq<seq<Node>>, depth: map<Node, nat>, n: Node, level: nat)
    requires CyclesOk(g, cycles, depth) && n !in depth
    ensures CyclesOk(g, cycles, depth[n := level])
    ensures SourcesBelow(cycles, n, [])
  {
    forall c | c in cycles ensures FollowsTree(c, depth[n := level]) && BackEdge(c).0 != n {
      assert FollowsTree(c, depth);
    }
  }

  lemma StackEnter(g: Graph, state: map<Node, Mark>, stack: seq<Node>, depth: map<Node, nat>, n: Node)
    requires StackOk(g, state, stack, depth) && n in Universe(g) && n !in state
    requires stack != [] ==> Edge(g, stack[|stack| - 1], n)
    ensures StackOk(g, state[n := Visiting], stack + [n], depth[n := |stack|])
  {
    assert forall i :: 0 <= i < |stack| ==> stack[i] in stack;
  }

  lemma StackLeave(g: Graph, state: map<Node, Mark>, stack: seq<Node>, depth: map<Node, nat>)
    requires StackOk(g, state, stack, depth) && stack != []
    ensures StackOk(g, state[stack[|stack| - 1] := Done], stack[..|stack| - 1], depth)
  {
    var n, rest := stack[|stack| - 1], stack[..|stack| - 1];
    assert stack == rest + [n];
    assert n !in rest;
  }

  /** `[...stack.slice(at), next]` is a genuine simple cycle when `next` stands at `at`. */
  lemma StackTailIsCycle(g: Graph, state: map<Node, Mark>, stack: seq<Node>, depth: map<Node, nat>, at: nat)
    requires StackOk(g, state, stack, depth) && at < |stack| && Edge(g, stack[|stack| - 1], stack[at])
    ensures IsSimpleCycle(g, stack[at..] + [stack[at]])
    ensures FollowsTree(stack[at..] + [stack[at]], depth)
    ensures BackEdge(stack[at..] + [stack[at]]) == (stack[|stack| - 1], stack[at])
  {
    var c := stack[at..] + [stack[at]];
    assert c[..|c| - 1] == stack[at..];
    forall i, j | 0 <= i && j == i + 1 < |c| ensures Edge(g, c[i], c[j]) {
      if j < |c| - 1 { assert Edge(g, stack[at + i], stack[at + j]); }
    }
  }

  lemma AddCycle(g: Graph, cycles: seq<seq<Node>>, depth: map<Node, nat>, c: seq<Node>, seen: seq<Node>)
    requires CyclesOk(g, cycles, depth) && IsSimpleCycle(g, c) && FollowsTree(c, depth)
    requires SourcesBelow(cycles, BackEdge(c).0, seen) && BackEdge(c).1 !in seen
    ensures CyclesOk(g, cycles + [c], depth)
    ensures SourcesBelow(cycles + [c], BackEdge(c).0, seen + [BackEdge(c).1])
  {
    forall k | 0 <= k < |cycles| ensures BackEdge(cycles[k]) != BackEdge(c) { assert cycles[k] in cycles; }
  }

  lemma RankedEnter(g: Graph, cuts: set<(Node, Node)>, state: map<Node, Mark>, rank: map<Node, nat>, clock: nat,
                    n: Node)
    requires Ranked(g, cuts, state, rank, clock) && n !in state
    ensures Ranked(g, cuts, state[n := Visiting], rank, clock)
  {
  }

  lemma RankedLeave(g: Graph, cuts: set<(Node, Node)>, state: map<Node, Mark>, rank: map<Node, nat>, clock: nat,
                    n: Node)
    requires Ranked(g, cuts, state, rank, clock) && n in state && state[n] == Visiting
    requires forall w | Edge(g, n, w) && (n, w) !in cuts :: w in state && state[w] == Done
    ensures Ranked(g, cuts, state[n := Done], rank[n := clock], clock + 1)
  {
  }

  lemma ClosingsGrow(cycles: seq<seq<Node>>, c: seq<Node>)
    ensures Closings(cycles + [c]) == Closings(cycles) + {BackEdge(c)}
  {
    assert (cycles + [c])[..|cycles|] == cycles;
  }

  lemma {:induction false} ClosingsStay(cycles: seq<seq<Node>>, more: seq<seq<Node>>)
    requires cycles <= more
    ensures Closings(cycles) <= Closings(more)
  {
    if |cycles| < |more| {
      assert cycles <= more[..|more| - 1];
      ClosingsStay(cycles, more[..|more| - 1]);
    } else {
      assert cycles == more;
    }
  }

  lemma RankedCut(g: Graph, cuts: set<(Node, Node)>, more: set<(Node, Node)>, state: map<Node, Mark>,
                  rank: map<Node, nat>, clock: nat)
    requires Ranked(g, cuts, state, rank, clock) && cuts <= more
    ensures Ranked(g, more, state, rank, clock)
  {
  }

  ghost function EnterNotes(t: Notes, n: Node, level: nat): Notes { t.(depth := t.depth[n := level]) }

  ghost function LeaveNotes(t: Notes, n: Node): Notes { t.(rank := t.rank[n := t.clock], clock := t.clock + 1) }

  lemma EnterOk(g: Graph, state: map<Node, Mark>, stack: seq<Node>, cycles: seq<seq<Node>>, t: Notes, n: Node)
    requires SearchOk(g, state, stack, cycles, t) && n in Universe(g) && n !in state
    requires stack != [] ==> Edge(g, stack[|stack| - 1], n)
    ensures SearchOk(g, state[n := Visiting], stack + [n], cycles, EnterNotes(t, n, |stack|))
    ensures SourcesBelow(cycles, n, [])
  {
    StackEnter(g, state, stack, t.depth, n);
    CyclesOkDeeper(g, cycles, t.depth, n, |stack|);
    RankedEnter(g, Closings(cycles), state, t.rank, t.clock, n);
  }

  lemma LeaveOk(g: Graph, state: map<Node, Mark>, stack: seq<Node>, cycles: seq<seq<Node>>, t: Notes, n: Node)
    requires SearchOk(g, state, stack, cycles, t) && stack != [] && stack[|stack| - 1] == n
    requires AllDone(state, cycles, n, Imports(g, n))
    ensures SearchOk(g, state[n := Done], stack[..|stack| - 1], cycles, LeaveNotes(t, n))
  {
    assert n in stack;
    StackLeave(g, state, stack, t.depth);
    RankedLeave(g, Closings(cycles), state, t.rank, t.clock, n);
  }

  lemma RecordOk(g: Graph, state: map<Node, Mark>, stack: seq<Node>, cycles: seq<seq<Node>>, t: Notes, at: nat,
                 seen: seq<Node>)
    requires SearchOk(g, state, stack, cycles, t) && at < |stack| && Edge(g, stack[|stack| - 1], stack[at])
    requires SourcesBelow(cycles, stack[|stack| - 1], seen) && stack[at] !in seen
    ensures SearchOk(g, state, stack, cycles + [stack[at..] + [stack[at]]], t)
    ensures BackEdge(stack[at..] + [stack[at]]) == (stack[|stack| - 1], stack[at])
    ensures SourcesBelow(cycles + [stack[at..] + [stack[at]]], stack[|stack| - 1], seen + [stack[at]])
  {
    var c := stack[at..] + [stack[at]];
    ClosingsGrow(cycles, c);
    RankedCut(g, Closings(cycles), Closings(cycles + [c]), state, t.rank, t.clock);
    StackTailIsCycle(g, state, stack, t.depth, at);
    AddCycle(g, cycles, t.depth, stack[at..] + [stack[at]], seen);
  }

  lemma SeenMore(state: map<Node, Mark>, cycles: seq<seq<Node>>, u: Node, seen: seq<Node>, next: Node)
    requires SourcesBelow(cycles, u, seen)
    ensures SourcesBelow(cycles, u, seen + [next])
    ensures AllDone(state, cycles, u, seen) && next in state && state[next] == Done ==>
              AllDone(state, cycles, u, seen + [next])
  {
  }

  lemma RecordDone(state: map<Node, Mark>, cycles: seq<seq<Node>>, u: Node, seen: seq<Node>, next: Node, c: seq<Node>)
    requires AllDone(state, cycles, u, seen) && BackEdge(c) == (u, next)
    ensures AllDone(state, cycles + [c], u, seen + [next])
  {
    ClosingsGrow(cycles, c);
  }

  lemma LeaveProgress(state0: map<Node, Mark>, cycles0: seq<seq<Node>>, state: map<Node, Mark>,
                      cycles: seq<seq<Node>>, u: Node)
    requires Progress(state0, cycles0, state, cycles, {u}) && u !in state0
    ensures Progress(state0, cycles0, state[u := Done], cycles, {})
  {
  }

  lemma RecordProgress(state0: map<Node, Mark>, cycles0: seq<seq<Node>>, state: map<Node, Mark>,
                       cycles: seq<seq<Node>>, u: Node, c: seq<Node>)
    requires Progress(state0, cycles0, state, cycles, {u}) && u !in state0 && BackEdge(c).0 == u
    ensures Progress(state0, cycles0, state, cycles + [c], {u})
  {
  }

  lemma AllDoneLater(state: map<Node, Mark>, cycles: seq<seq<Node>>, state': map<Node, Mark>, cycles': seq<seq<Node>>,
                     u: Node, seen: seq<Node>)
    requires (forall n | n in state :: n in state' && state'[n] == state[n]) && cycles <= cycles'
    ensures AllDone(state, cycles, u, seen) ==> AllDone(state', cycles', u, seen)
  {
    ClosingsStay(cycles, cycles');
  }

  /** A nested visit of another node keeps everything the loop at `u` relies on. */
  lemma NestedVisit(s0: map<Node, Mark>, c0: seq<seq<Node>>, s1: map<Node, Mark>, c1: seq<seq<Node>>,
                    s2: map<Node, Mark>, c2: seq<seq<Node>>, u: Node, seen: seq<Node>)
    requires Progress(s0, c0, s1, c1, {u}) && Progress(s1, c1, s2, c2, {})
    requires u in s1 && SourcesBelow(c1, u, seen)
    ensures Progress(s0, c0, s2, c2, {u}) && SourcesBelow(c2, u, seen)
  {
    forall k | |c0| <= k < |c2| ensures BackEdge(c2[k]).0 !in s0 {
      if k < |c1| { assert c2[k] == c1[k]; }
    }
    forall x | x in c2 && BackEdge(x).0 == u ensures BackEdge(x).1 in seen {
      var k :| 0 <= k < |c2| && c2[k] == x;
      assert k < |c1| && c1[k] == x;
    }
  }

  /** A walk that takes one of the imports in `cuts`. */
  ghost predicate Takes(p: seq<Node>, cuts: set<(Node, Node)>) {
    exists i, j :: 0 <= i && j == i + 1 < |p| && (p[i], p[j]) in cuts
  }

  /** Every closed walk takes the closing import of some recorded cycle: without those the graph is acyclic. */
  ghost predicate CutByClosings(g: Graph, cycles: seq<seq<Node>>) {
    forall p | IsClosedWalk(g, p) :: Takes(p, Closings(cycles))
  }

  lemma RanksForbidClosedWalks(g: Graph, cuts: set<(Node, Node)>, state: map<Node, Mark>, rank: map<Node, nat>,
                               clock: nat, p: seq<Node>)
    requires Ranked(g, cuts, state, rank, clock)
    requires forall f | f in g :: f in state && state[f] == Done
    requires IsClosedWalk(g, p)
    ensures Takes(p, cuts)
  {
    if !Takes(p, cuts) { RankDrops(g, cuts, state, rank, clock, p, |p| - 1); }
  }

  lemma {:induction false} RankDrops(g: Graph, cuts: set<(Node, Node)>, state: map<Node, Mark>, rank: map<Node, nat>,
                                     clock: nat, p: seq<Node>, k: nat)
    requires Ranked(g, cuts, state, rank, clock) && IsWalk(g, p) && !Takes(p, cuts) && 0 < k < |p|
    requires forall f | f in g :: f in state && state[f] == Done
    ensures p[0] in rank && p[k] in rank && rank[p[k]] < rank[p[0]]
  {
    assert Edge(g, p[k - 1], p[k]) && (p[k - 1], p[k]) !in cuts;
    if k > 1 { RankDrops(g, cuts, state, rank, clock, p, k - 1); }
  }

  lemma NothingToCut(g: Graph, cycles: seq<seq<Node>>)
    requires CutByClosings(g, cycles) && forall c | c in cycles :: IsSimpleCycle(g, c)
    ensures cycles == [] <==> !Cyclic(g)
  {
    if cycles == [] {
      assert Closings(cycles) == {};
      forall p ensures !Takes(p, {}) {}
    } else {
      assert cycles[0] in cycles;
    }
  }

  ghost predicate SameNodes(c: seq<Node>, d: seq<Node>) { forall n :: n in c <==> n in d }

  /** The tree levels of a recorded cycle's nodes run from that of its first node to that of its last but one. */
  lemma LevelsOnCycle(c: seq<Node>, depth: map<Node, nat>, n: Node)
    requires c != [] && c[0] == c[|c| - 1] && FollowsTree(c, depth) && n in c
    ensures n in depth && depth[c[0]] <= depth[n] <= depth[c[|c| - 2]]
    ensures depth[n] == depth[c[0]] ==> n == c[0]
    ensures depth[n] == depth[c[|c| - 2]] ==> n == c[|c| - 2]
  {
    var i :| 0 <= i < |c| && c[i] == n;
  }

  /**
   * The de-duplication key forgets the order of a cycle, yet two different recorded cycles never share
   * one: along the search tree the node set determines where the back edge starts and ends.
   */
  lemma SameNodesSameBackEdge(g: Graph, c: seq<Node>, d: seq<Node>, depth: map<Node, nat>)
    requires IsSimpleCycle(g, c) && FollowsTree(c, depth)
    requires IsSimpleCycle(g, d) && FollowsTree(d, depth)
    requires SameNodes(c, d)
    ensures BackEdge(c) == BackEdge(d)
  {
    assert c[0] in d && d[0] in c && c[|c| - 2] in d && d[|d| - 2] in c;
    LevelsOnCycle(d, depth, c[0]);
    LevelsOnCycle(c, depth, d[0]);
    LevelsOnCycle(d, depth, c[|c| - 2]);
    LevelsOnCycle(c, depth, d[|d| - 2]);
  }

  // ---------- the search ----------

  class CycleFinder {
    const graph: Graph
    var state: map<Node, Mark>
    var stack: seq<Node>
    var cycles: seq<seq<Node>>

    ghost var notes: Notes

    ghost predicate Valid()
      reads this
    {
      WellFormed(graph) && SearchOk(graph, state, stack, cycles, notes)
    }

    constructor (graph: Graph)
      requires WellFormed(graph)
      ensures Valid() && this.graph == graph
      ensures state == map[] && stack == [] && cycles == []
    {
      this.graph := graph;
      state, stack, cycles := map[], [], [];
      notes := Notes(map[], 0, map[]);
    }

    /** The loop over the files. */
    method VisitAll(files: seq<Node>)
      requires Valid() && stack == [] && forall f | f in files :: f in graph
      modifies this
      ensures Valid() && stack == [] && forall f | f in files :: f in state
    {
      for i := 0 to |files|
        invariant Valid() && stack == []
        invariant forall k :: 0 <= k < i ==> files[k] in state
      {
        assert files[i] in files;
        if files[i] !in state { Visit(files[i]); }
      }
    }

    /** Terminates because each call marks a node that was unmarked. */
    method Visit(node: Node)
      requires Valid() && node in Universe(graph) && node !in state
      requires stack != [] ==> Edge(graph, stack[|stack| - 1], node)
      modifies this
      ensures Valid() && stack == old(stack)
      ensures node in state && state[node] == Done
      ensures Progress(old(state), old(cycles), state, cycles, {})
      decreases Universe(graph) - state.Keys, 0
    {
      Enter(node);
      assert Universe(graph) - state.Keys < Universe(graph) - old(state).Keys by {
        assert node in Universe(graph) - old(state).Keys;
      }
      FollowAll(node, old(state), old(cycles));
      Leave(node, old(state), old(cycles));
    }

    /** `state.set(node, VISITING); stack.push(node)` */
    method Enter(node: Node)
      requires Valid() && node in Universe(graph) && node !in state
      requires stack != [] ==> Edge(graph, stack[|stack| - 1], node)
      modifies this`state, this`stack, this`notes
      ensures Valid() && stack == old(stack) + [node] && state == old(state)[node := Visiting]
      ensures SourcesBelow(cycles, node, [])
    {
      EnterOk(graph, state, stack, cycles, notes, node);
      notes := EnterNotes(notes, node, |stack|);
      state := state[node := Visiting];
      stack := stack + [node];
    }

    /** `stack.pop(); state.set(node, DONE)` */
    method Leave(node: Node, ghost state0: map<Node, Mark>, ghost cycles0: seq<seq<Node>>)
      requires Valid() && stack != [] && stack[|stack| - 1] == node
      requires node !in state0 && Progress(state0, cycles0, state, cycles, {node})
      requires AllDone(state, cycles, node, Imports(graph, node))
      modifies this`state, this`stack, this`notes
      ensures Valid() && stack == old(stack)[..|old(stack)| - 1] && state == old(state)[node := Done]
      ensures Progress(state0, cycles0, state, cycles, {})
    {
      LeaveOk(graph, state, stack, cycles, notes, node);
      LeaveProgress(state0, cycles0, state, cycles, node);
      stack := stack[..|stack| - 1];
      state := state[node := Done];
      notes := LeaveNotes(notes, node);
    }

    /** The loop over the imports of `node`. */
    method FollowAll(node: Node, ghost state0: map<Node, Mark>, ghost cycles0: seq<seq<Node>>)
      requires Valid() && stack != [] && stack[|stack| - 1] == node
      requires node in state && node !in state0 && Progress(state0, cycles0, state, cycles, {node})
      requires SourcesBelow(cycles, node, [])
      modifies this
      ensures Valid() && stack == old(stack)
      ensures node in state && Progress(state0, cycles0, state, cycles, {node})
      ensures AllDone(state, cycles, node, Imports(graph, node))
      decreases Universe(graph) - state.Keys, 3
    {
      var imports := Imports(graph, node);
      for i := 0 to |imports|
        invariant Valid() && stack == old(stack) && old(state).Keys <= state.Keys
        invariant Progress(state0, cycles0, state, cycles, {node})
        invariant AllDone(state, cycles, node, imports[..i])
        invariant SourcesBelow(cycles, node, imports[..i])
      {
        assert imports[..i + 1] == imports[..i] + [imports[i]];
        Follow(node, imports[i], imports[..i], state0, cycles0);
      }
      assert imports[..|imports|] == imports;
    }

    /** One import of `node`: close a cycle, descend, or skip. */
    method Follow(node: Node, next: Node, ghost seen: seq<Node>,
                  ghost state0: map<Node, Mark>, ghost cycles0: seq<seq<Node>>)
      requires Valid() && stack != [] && stack[|stack| - 1] == node
      requires Edge(graph, node, next) && next !in seen
      requires node in state && node !in state0 && Progress(state0, cycles0, state, cycles, {node})
      requires SourcesBelow(cycles, node, seen) && AllDone(state, cycles, node, seen)
      modifies this
      ensures Valid() && stack == old(stack) && old(state).Keys <= state.Keys
      ensures Progress(state0, cycles0, state, cycles, {node})
      ensures AllDone(state, cycles, node, seen + [next])
      ensures SourcesBelow(cycles, node, seen + [next])
      decreases Universe(graph) - state.Keys, 2
    {
      if next in state && state[next] == Visiting {
        RecordCycle(node, next, seen, state0, cycles0);
      } else {
        if next !in state { Descend(node, next, seen, state0, cycles0); }
        SeenMore(state, cycles, node, seen, next);
      }
    }

    /** `cycles.push([...stack.slice(stack.indexOf(next)), next])`; `next` is on the stack, so the index exists. */
    method RecordCycle(node: Node, next: Node, ghost seen: seq<Node>,
                       ghost state0: map<Node, Mark>, ghost cycles0: seq<seq<Node>>)
      requires Valid() && stack != [] && stack[|stack| - 1] == node && next in state && state[next] == Visiting
      requires Edge(graph, node, next) && next !in seen && SourcesBelow(cycles, node, seen)
      requires AllDone(state, cycles, node, seen)
      requires node !in state0 && Progress(state0, cycles0, state, cycles, {node})
      modifies this`cycles
      ensures Valid() && |cycles| == |old(cycles)| + 1 && old(cycles) <= cycles
      ensures BackEdge(cycles[|old(cycles)|]) == (node, next)
      ensures Progress(state0, cycles0, state, cycles, {node}) && SourcesBelow(cycles, node, seen + [next])
      ensures AllDone(state, cycles, node, seen + [next])
    {
      var at := IndexOf(stack, next);
      RecordOk(graph, state, stack, cycles, notes, at, seen);
      RecordDone(state, cycles, node, seen, next, stack[at..] + [next]);
      RecordProgress(state0, cycles0, state, cycles, node, stack[at..] + [next]);
      cycles := cycles + [stack[at..] + [next]];
    }

    /** `visit(next)` from inside the loop of `node`. */
    method Descend(node: Node, next: Node, ghost seen: seq<Node>,
                   ghost state0: map<Node, Mark>, ghost cycles0: seq<seq<Node>>)
      requires Valid() && stack != [] && stack[|stack| - 1] == node && Edge(graph, node, next) && next !in state
      requires node in state && Progress(state0, cycles0, state, cycles, {node}) && SourcesBelow(cycles, node, seen)
      modifies this
      ensures Valid() && stack == old(stack) && old(state).Keys <= state.Keys && old(cycles) <= cycles
      ensures AllDone(old(state), old(cycles), node, seen) ==> AllDone(state, cycles, node, seen)
      ensures Progress(state0, cycles0, state, cycles, {node}) && SourcesBelow(cycles, node, seen)
      ensures next in state && state[next] == Done
      decreases Universe(graph) - state.Keys, 1
    {
      assert next in Universe(graph);
      ghost var state1, cycles1 := state, cycles;
      Visit(next);
      NestedVisit(state0, cycles0, state1, cycles1, state, cycles, node, seen);
      AllDoneLater(state1, cycles1, state, cycles, node, seen);
    }
  }

  /** `Array.prototype.indexOf` for an element that is present. */
  method IndexOf(s: seq<Node>, x: Node) returns (at: nat)
    requires x in s
    ensures at < |s| && s[at] == x && x !in s[..at]
  {
    at := 0;
    while s[at] != x
      invariant at < |s| && x !in s[..at] && x in s[at..]
      decreases |s| - at
    {
      at := at + 1;
    }
  }

  // ---------- the report ----------

  function ReportKey(cycle: seq<Node>): string { Join(Sort(cycle), '|') }

  lemma ReportKeyDeterminesNodes(c: seq<Node>, d: seq<Node>)
    requires c != [] && d != []
    requires forall n | n in c :: '|' !in n
    requires forall n | n in d :: '|' !in n
    requires ReportKey(c) == ReportKey(d)
    ensures multiset(c) == multiset(d)
  {
    SortSorts(c);
    SortSorts(d);
    assert forall n | n in Sort(c) :: n in multiset(Sort(c));
    assert forall n | n in Sort(d) :: n in multiset(Sort(d));
    assert |Sort(c)| == |multiset(Sort(c))| == |c|;
    assert |Sort(d)| == |multiset(Sort(d))| == |d|;
    JoinInjective(Sort(c), Sort(d), '|');
  }

  /**
   * The whole script after the graph is built. `lines` are the cycles printed; the exit code is 0 exactly
   * when the import graph has no directed cycle, self-imports included. The report is complete: taking out the
   * closing imports of the recorded cycles leaves a graph without any. Unless a path contains the joining
   * character, the de-duplication drops nothing: every recorded cycle is printed.
   */
  method Run(files: seq<Node>, graph: Graph) returns (recorded: seq<seq<Node>>, lines: seq<seq<Node>>, exitCode: int)
    requires WellFormed(graph) && (forall f :: f in files <==> f in graph)
    ensures exitCode == (if Cyclic(graph) then 1 else 0)
    ensures forall c | c in recorded :: IsSimpleCycle(graph, c)
    ensures CutByClosings(graph, recorded)
    ensures forall c | c in lines :: c in recorded
    ensures ReportKeys(lines) == ReportKeys(recorded) && DistinctKeys(lines)
    ensures (forall n | n in Universe(graph) :: '|' !in n) ==> lines == recorded
  {
    recorded := Search(files, graph);
    lines := Deduplicate(recorded);
    exitCode := if lines == [] then 0 else 1;
    assert recorded != [] ==> ReportKey(recorded[0]) in ReportKeys(recorded);
    if forall n | n in Universe(graph) :: '|' !in n { KeysDiffer(graph, recorded); }
  }

  lemma KeysDiffer(g: Graph, recorded: seq<seq<Node>>)
    requires (forall n | n in Universe(g) :: '|' !in n) && (forall c | c in recorded :: IsSimpleCycle(g, c))
    requires forall i, j :: 0 <= i < j < |recorded| ==> !SameNodes(recorded[i], recorded[j])
    ensures DistinctKeys(recorded)
  {
    forall i, j | 0 <= i < j < |recorded| ensures ReportKey(recorded[i]) != ReportKey(recorded[j]) {
      var c, d := recorded[i], recorded[j];
      assert c in recorded && d in recorded;
      CycleNodesInUniverse(g, c);
      CycleNodesInUniverse(g, d);
      if ReportKey(c) == ReportKey(d) {
        ReportKeyDeterminesNodes(c, d);
        SameElements(c, d);
      }
    }
  }

  lemma CycleNodesInUniverse(g: Graph, c: seq<Node>)
    requires IsClosedWalk(g, c)
    ensures forall n | n in c :: n in Universe(g)
  {
    forall n | n in c ensures n in Universe(g) {
      var i :| 0 <= i < |c| && c[i] == n;
      if i > 0 { assert Edge(g, c[i - 1], c[i]); } else { assert Edge(g, c[0], c[1]); }
    }
  }

  /** The search over every file. Each recorded cycle has its own back edge. */
  method Search(files: seq<Node>, graph: Graph) returns (cycles: seq<seq<Node>>)
    requires WellFormed(graph) && (forall f :: f in files <==> f in graph)
    ensures cycles == [] <==> !Cyclic(graph)
    ensures forall c | c in cycles :: IsSimpleCycle(graph, c)
    ensures forall i, j :: 0 <= i < j < |cycles| ==> !SameNodes(cycles[i], cycles[j])
    ensures CutByClosings(graph, cycles)
  {
    var finder := new CycleFinder(graph);
    finder.VisitAll(files);
    cycles := finder.cycles;
    SearchDone(graph, finder.state, cycles, finder.notes);
  }

  lemma SearchDone(g: Graph, state: map<Node, Mark>, cycles: seq<seq<Node>>, t: Notes)
    requires SearchOk(g, state, [], cycles, t) && forall f | f in g :: f in state
    ensures cycles == [] <==> !Cyclic(g)
    ensures forall c | c in cycles :: IsSimpleCycle(g, c)
    ensures forall i, j :: 0 <= i < j < |cycles| ==> !SameNodes(cycles[i], cycles[j])
    ensures CutByClosings(g, cycles)
  {
    var none: seq<Node> := [];
    forall f | f in g ensures state[f] == Done { assert f !in none; }
    FinishedMeansCut(g, cycles, state, t);
    NothingToCut(g, cycles);
    RecordedDiffer(g, cycles, t.depth);
  }

  lemma FinishedMeansCut(g: Graph, cycles: seq<seq<Node>>, state: map<Node, Mark>, t: Notes)
    requires Ranked(g, Closings(cycles), state, t.rank, t.clock) && forall f | f in g :: f in state && state[f] == Done
    ensures CutByClosings(g, cycles)
  {
    forall p | IsClosedWalk(g, p) ensures Takes(p, Closings(cycles)) {
      RanksForbidClosedWalks(g, Closings(cycles), state, t.rank, t.clock, p);
    }
  }

  lemma RecordedDiffer(g: Graph, cycles: seq<seq<Node>>, depth: map<Node, nat>)
    requires CyclesOk(g, cycles, depth)
    ensures forall i, j :: 0 <= i < j < |cycles| ==> !SameNodes(cycles[i], cycles[j])
  {
    forall i, j | 0 <= i < j < |cycles| ensures !SameNodes(cycles[i], cycles[j]) {
      if SameNodes(cycles[i], cycles[j]) {
        assert cycles[i] in cycles && cycles[j] in cycles;
        SameNodesSameBackEdge(g, cycles[i], cycles[j], depth);
      }
    }
  }

  ghost function ReportKeys(cycles: seq<seq<Node>>): set<string> { set c | c in cycles :: ReportKey(c) }

  ghost predicate DistinctKeys(cycles: seq<seq<Node>>) {
    forall i, j :: 0 <= i < j < |cycles| ==> ReportKey(cycles[i]) != ReportKey(cycles[j])
  }

  /** Prints a cycle unless its key was printed before. */
  method Deduplicate(cycles: seq<seq<Node>>) returns (lines: seq<seq<Node>>)
    ensures forall c | c in lines :: c in cycles
    ensures ReportKeys(lines) == ReportKeys(cycles) && DistinctKeys(lines)
    ensures DistinctKeys(cycles) ==> lines == cycles
  {
    var reported: set<string> := {};
    lines := [];
    for i := 0 to |cycles|
      invariant forall c | c in lines :: c in cycles
      invariant reported == ReportKeys(lines) == ReportKeys(cycles[..i])
      invariant DistinctKeys(lines)
      invariant DistinctKeys(cycles) ==> lines == cycles[..i]
    {
      assert cycles[..i + 1] == cycles[..i] + [cycles[i]];
      KeysOfExtended(cycles[..i], cycles[i]);
      KeysOfExtended(lines, cycles[i]);
      var key := ReportKey(cycles[i]);
      if key in reported {
        KeyRepeats(cycles, i);
        continue;
      }
      reported := reported + {key};
      lines := lines + [cycles[i]];
    }
    assert cycles[..|cycles|] == cycles;
  }

  lemma KeysOfExtended(cycles: seq<seq<Node>>, c: seq<Node>)
    ensures ReportKeys(cycles + [c]) == ReportKeys(cycles) + {ReportKey(c)}
    ensures DistinctKeys(cycles) && ReportKey(c) !in ReportKeys(cycles) ==> DistinctKeys(cycles + [c])
  {
    forall k ensures k in ReportKeys(cycles + [c]) <==> k in ReportKeys(cycles) + {ReportKey(c)} {
      if k in ReportKeys(cycles) { var x :| x in cycles && ReportKey(x) == k; assert x in cycles + [c]; }
      if k == ReportKey(c) { assert c in cycles + [c]; }
    }
    if DistinctKeys(cycles) && ReportKey(c) !in ReportKeys(cycles) {
      forall i | 0 <= i < |cycles| ensures ReportKey(cycles[i]) != ReportKey(c) { assert cycles[i] in cycles; }
    }
  }

  lemma KeyRepeats(cycles: seq<seq<Node>>, i: nat)
    requires i < |cycles| && ReportKey(cycles[i]) in ReportKeys(cycles[..i])
    ensures !DistinctKeys(cycles)
  {
    var c :| c in cycles[..i] && ReportKey(c) == ReportKey(cycles[i]);
    var k :| 0 <= k < i && cycles[..i][k] == c;
    assert ReportKey(cycles[k]) == ReportKey(cycles[i]);
  }
}
