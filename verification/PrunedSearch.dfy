/** The search for paths on the pruned graph (routing.rs): what pruning leaves is a graph the search
    accepts, and the paths found use only selected edges. */
module PrunedSearch {
  import opened Common
  import opened TopK
  import opened RouteSearch
  import opened PoolPruning

  /** A pruned graph, some existing mint to start from and a positive number of paths to keep make a
      well-formed search; it has self-loops only where an edge trades a mint for itself. */
  lemma PrunedWellFormed(c: Config, placed: set<nat>, p: Problem)
    requires c.WellFormed() && Lists(c, p.graph, placed) && p.mode == c.mode && p.start < |p.graph| && p.keep >= 1
    ensures p.WellFormed()
    ensures (forall e :: e in placed ==> c.edges[e].source != c.edges[e].target) ==> p.NoSelfLoops()
    ensures forall e :: p.InGraph(e) ==> IsPlaced(c, placed, e)
  {
    forall e | p.InGraph(e) ensures IsPlaced(c, placed, e) {
      assert e in p.graph[e.source];
    }
    forall n, i | 0 <= n < |p.graph| && 0 <= i < |p.graph[n]|
      ensures p.graph[n][i].source == n && p.graph[n][i].target < |p.graph|
    {
      assert p.graph[n][i] in p.graph[n];
    }
  }

  /** The hop is a placed edge: walked forwards, or for an exact output backwards. */
  ghost predicate IsPlaced(c: Config, placed: set<nat>, e: EdgeWithNodes)
  {
    && e.edge in placed && e.edge < |c.edges|
    && var edge := c.edges[e.edge];
       if c.mode == ExactIn then edge.source == e.source && edge.target == e.target
       else edge.source == e.target && edge.target == e.source
  }

  /** The search on a pruned graph, with the other arguments of a request. */
  function ProblemOn(c: Config, graph: seq<seq<EdgeWithNodes>>, request: Problem): Problem
  {
    request.(mode := c.mode, graph := graph)
  }

  /** A path found: a route for its amount, all of whose hops are selected edges, as recorded. */
  ghost predicate Found(c: Config, p: Problem, placed: set<nat>, node: nat, amount: real, path: Path)
  {
    && IsCandidate(p, node, Kept(amount, path))
    && forall i :: 0 <= i < |path| ==> IsPlaced(c, placed, path[i])
  }

  /** Pruning and searching: the graph is pruned as promised, each mint gets at most `keep` paths,
      and all of them are found in it. */
  method PruneAndSearch(c: Config, request: Problem, seen: seq<seq<real>>)
    returns (graph: seq<seq<EdgeWithNodes>>, goodPaths: seq<seq<(real, Path)>>)
    requires c.WellFormed() && request.start < c.mintCount && request.keep >= 1
    requires |seen| == 8 * c.mintCount && forall i :: 0 <= i < |seen| ==> |seen[i]| == 3
    ensures |goodPaths| == |graph| == c.mintCount
    ensures exists chosen, selected, placed ::
              && PrunedTo(c, graph, chosen, selected, placed)
              && forall n, i :: 0 <= n < |goodPaths| && 0 <= i < |goodPaths[n]| ==>
                   Found(c, ProblemOn(c, graph, request), placed, n, goodPaths[n][i].0, goodPaths[n][i].1)
    ensures forall n :: 0 <= n < |goodPaths| ==> |goodPaths[n]| <= request.keep
  {
    hide PrunedTo, Config.WellFormed, IsCandidate, Problem.WellFormed, BestK, GoodPaths, Problem.InGraph, Found,
         Complete;
    var count;
    count, graph := SelectBestPools(c);
    ghost var chosen, selected, placed :| PrunedTo(c, graph, chosen, selected, placed) && count == |placed|;
    PrunedGraph(c, graph, chosen, selected, placed);
    var p := ProblemOn(c, graph, request);
    PrunedWellFormed(c, placed, p);
    goodPaths := BestPricePathsDepthSearch(p, seq(|p.graph|, _ => Padding(p.keep)), seen);
    ghost var t := SearchTrace(p, seen);
    forall n | 0 <= n < |goodPaths|
      ensures |goodPaths[n]| <= p.keep
      ensures forall i :: 0 <= i < |goodPaths[n]| ==> Found(c, p, placed, n, goodPaths[n][i].0, goodPaths[n][i].1)
    {
      assert BestOf(p, t.offered[n], goodPaths[n]);
      forall i | 0 <= i < |goodPaths[n]| ensures Found(c, p, placed, n, goodPaths[n][i].0, goodPaths[n][i].1) {
        var x := Kept(goodPaths[n][i].0, goodPaths[n][i].1);
        var k :| 0 <= k < |t.offered[n]| && t.offered[n][k] == x;
        CandidateFound(c, p, placed, n, x);
      }
    }
  }

  lemma PrunedGraph(c: Config, graph: seq<seq<EdgeWithNodes>>, chosen: seq<set<nat>>, selected: set<nat>,
                    placed: set<nat>)
    requires PrunedTo(c, graph, chosen, selected, placed)
    ensures Lists(c, graph, placed) && |graph| == c.mintCount
  {
  }

  lemma CandidateFound(c: Config, p: Problem, placed: set<nat>, n: nat, x: Slot)
    requires IsCandidate(p, n, x)
    requires forall e :: p.InGraph(e) ==> IsPlaced(c, placed, e)
    ensures x.Kept? && Found(c, p, placed, n, x.amount, x.path)
  {
    hide Problem.InGraph, IsPlaced, Connected, PathAmount, PathAccounts, NoRevisit;
  }
}
