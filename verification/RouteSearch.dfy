/** The depth-first search for the best swap paths out of a mint (routing.rs). Amounts and
    prices are exact reals; the edge price function is a deterministic parameter. */
module RouteSearch {
  import opened Common
  import opened TopK

  datatype EdgeInfo = EdgeInfo(price: real, accounts: nat)

  /** The arguments of a search. `maxAccounts` is as given by the caller, before the cap of 40. */
  datatype Problem = Problem(
    mode: SwapMode,
    graph: seq<seq<EdgeWithNodes>>,
    edgePrice: (nat, nat) -> Option<EdgeInfo>,
    start: nat,
    amount: nat,
    maxPathLength: nat,
    maxAccounts: nat,
    hotMints: set<nat>,
    avoidColdMints: bool,
    keep: nat)
  {
    function AccountBudget(): (r: nat)
      ensures r <= 40 && r <= maxAccounts && r in {40, maxAccounts}
    {
      if maxAccounts < 40 then maxAccounts else 40
    }

    /** A direct path is offered even when no hops are allowed. */
    function HopBudget(): (r: nat)
      ensures r >= 1 && r >= maxPathLength && r in {1, maxPathLength}
    {
      if maxPathLength < 1 then 1 else maxPathLength
    }

    /** Adjacency lists hold edges of their own node to existing nodes, and an edge index
        belongs to one edge. */
    ghost predicate WellFormed()
    {
      && start < |graph| && keep >= 1
      && (forall n, i :: 0 <= n < |graph| && 0 <= i < |graph[n]| ==>
            graph[n][i].source == n && graph[n][i].target < |graph|)
      && (forall e, f :: InGraph(e) && InGraph(f) && e.edge == f.edge ==> e == f)
    }

    ghost predicate InGraph(e: EdgeWithNodes)
    {
      e.source < |graph| && e in graph[e.source]
    }

    ghost predicate NoSelfLoops()
    {
      forall e :: InGraph(e) ==> e.source != e.target
    }
  }

  /** The saturating cast of an amount to 64 bits. */
  function ToU64(a: real): nat
  {
    if a < 0.0 then 0
    else if a >= 18446744073709551616.0 then 18446744073709551615
    else a.Floor
  }

  lemma ToU64Means(a: real)
    ensures 0.0 <= a < 18446744073709551616.0 ==> ToU64(a) as real <= a < ToU64(a) as real + 1.0
    ensures a < 0.0 ==> ToU64(a) == 0
    ensures a >= 18446744073709551616.0 ==> ToU64(a) == 18446744073709551615
  {
  }

  // ---- What a path is worth ----

  /** `path` leads from the start node to `node`. */
  ghost predicate Connected(start: nat, node: nat, path: Path)
    decreases |path|
  {
    if path == [] then node == start
    else path[|path| - 1].target == node && Connected(start, path[|path| - 1].source, path[..|path| - 1])
  }

  /** Output of the path, priced hop by hop, or None where an edge has no price. */
  ghost function PathAmount(p: Problem, path: Path): Option<real>
  {
    if path == [] then Some(p.amount as real)
    else
      var a := PathAmount(p, path[..|path| - 1]);
      if a.None? then None
      else
        var info := p.edgePrice(path[|path| - 1].edge, ToU64(a.value));
        if info.None? then None else Some(a.value * info.value.price)
  }

  /** Accounts needed by the path. */
  ghost function PathAccounts(p: Problem, path: Path): Option<nat>
  {
    if path == [] then Some(0)
    else
      var prefix := path[..|path| - 1];
      var c, a := PathAccounts(p, prefix), PathAmount(p, prefix);
      if c.None? || a.None? then None
      else
        var info := p.edgePrice(path[|path| - 1].edge, ToU64(a.value));
        if info.None? then None else Some(c.value + info.value.accounts)
  }

  /** The nodes along the path, first source to last target, are pairwise different. */
  ghost predicate NoRevisit(path: Path)
  {
    forall i, j :: 0 <= i <= j < |path| ==> path[i].source != path[j].target
  }

  /** `path` is a route from the start to `node` inside the budgets, worth `amount` and using
      `accounts` accounts. */
  ghost predicate IsRoute(p: Problem, node: nat, path: Path, amount: real, accounts: nat)
  {
    && Connected(p.start, node, path)
    && (forall i :: 0 <= i < |path| ==> p.InGraph(path[i]))
    && PathAmount(p, path) == Some(amount)
    && PathAccounts(p, path) == Some(accounts)
    && (p.NoSelfLoops() ==> NoRevisit(path))
  }

  /** No search goes on from the path: no hop is left, four more accounts are not, the amount is
      negative, or its last hop leaves a cold mint that is to be avoided. */
  ghost predicate EndsThere(p: Problem, q: Path)
  {
    || |q| >= p.maxPathLength
    || (PathAccounts(p, q).Some? && (PathAccounts(p, q).value + 4 > p.maxAccounts || PathAccounts(p, q).value + 4 > 40))
    || (PathAmount(p, q).Some? && PathAmount(p, q).value < 0.0)
    || (q != [] && p.avoidColdMints && p.hotMints != {} && q[|q| - 1].source !in p.hotMints)
  }

  /** No proper prefix of the path is one where the search ends. */
  ghost predicate Onward(p: Problem, path: Path)
  {
    forall j :: 0 <= j < |path| ==> !EndsThere(p, path[..j])
  }

  /** What every path ever offered to `node` satisfies. */
  ghost predicate IsCandidate(p: Problem, node: nat, x: Slot)
  {
    && x.Kept? && 1 <= |x.path| <= p.HopBudget()
    && (|x.path| == 1 || Onward(p, x.path))
    && exists accounts: nat :: accounts <= p.AccountBudget() && IsRoute(p, node, x.path, x.amount, accounts)
  }

  lemma ExtendRoute(p: Problem, node: nat, path: Path, amount: real, accounts: nat, e: EdgeWithNodes, info: EdgeInfo)
    requires IsRoute(p, node, path, amount, accounts)
    requires p.InGraph(e) && e.source == node
    requires forall i :: 0 <= i < |path| ==> path[i].source != e.target
    requires p.edgePrice(e.edge, ToU64(amount)) == Some(info)
    ensures IsRoute(p, e.target, path + [e], amount * info.price, accounts + info.accounts)
  {
    var longer := path + [e];
    assert longer[..|longer| - 1] == path && longer[|longer| - 1] == e;
    assert PathAmount(p, longer[..|longer| - 1]) == Some(amount);
    assert p.edgePrice(longer[|longer| - 1].edge, ToU64(amount)) == Some(info);
    assert PathAmount(p, longer).Some?;
    assert PathAmount(p, longer).value == amount * info.price;
    assert PathAmount(p, longer) == Some(amount * info.price);
    assert PathAccounts(p, longer) == Some(accounts + info.accounts);
  }

  // ---- The kept lists of all nodes ----

  ghost predicate NodeTable(p: Problem, node: nat, best: seq<Slot>, offered: seq<Slot>)
  {
    && best == BestK(p.mode, p.keep, offered)
    && forall i :: 0 <= i < |offered| ==> IsCandidate(p, node, offered[i])
  }

  ghost predicate Tables(p: Problem, best: seq<seq<Slot>>, offered: seq<seq<Slot>>)
  {
    && |best| == |offered| == |p.graph|
    && forall n :: 0 <= n < |p.graph| ==> NodeTable(p, n, best[n], offered[n])
  }

  /** Nothing offered is forgotten. */
  ghost predicate Extends(before: seq<seq<Slot>>, after: seq<seq<Slot>>)
  {
    |before| == |after| && forall n :: 0 <= n < |before| ==> before[n] <= after[n]
  }

  lemma OfferKeepsTables(p: Problem, best: seq<seq<Slot>>, offered: seq<seq<Slot>>, n: nat, x: Slot)
    requires p.WellFormed() && Tables(p, best, offered) && n < |p.graph| && IsCandidate(p, n, x)
    ensures |best[n]| == p.keep >= 1 && |offered| == |p.graph|
    ensures Tables(p, best[n := Offer(p.mode, best[n], x)], offered[n := offered[n] + [x]])
    ensures Extends(offered, offered[n := offered[n] + [x]])
  {
    hide IsCandidate, BestK, Offer, Problem.InGraph;
    assert NodeTable(p, n, best[n], offered[n]);
    forall i | 0 <= i < |offered[n]| ensures offered[n][i].Kept? {
      CandidateKept(p, n, offered[n][i]);
    }
    CandidateKept(p, n, x);
    OfferIsTopK(p.mode, p.keep, offered[n], x);
    assert NodeTable(p, n, Offer(p.mode, best[n], x), offered[n] + [x]);
  }

  lemma CandidateKept(p: Problem, n: nat, x: Slot)
    requires IsCandidate(p, n, x)
    ensures x.Kept?
  {
  }

  /** Comparing edge indices finds exactly the same path. */
  lemma SameRouteIsEqual(p: Problem, n: nat, slot: Slot, x: Slot)
    requires p.WellFormed() && IsCandidate(p, n, slot) && IsCandidate(p, n, x)
    ensures SameRoute(slot, x.amount, x.path) <==> slot == x
  {
    var a: nat :| IsRoute(p, n, slot.path, slot.amount, a);
    var b: nat :| IsRoute(p, n, x.path, x.amount, b);
    if SameRoute(slot, x.amount, x.path) {
      forall i | 0 <= i < |x.path| ensures slot.path[i] == x.path[i] {
        assert p.InGraph(slot.path[i]) && p.InGraph(x.path[i]);
      }
    }
  }

  lemma AlreadyIn(p: Problem, n: nat, best: seq<Slot>, offered: seq<Slot>, x: Slot)
    requires p.WellFormed() && NodeTable(p, n, best, offered) && IsCandidate(p, n, x)
    ensures (exists k :: 0 <= k < |best| && SameRoute(best[k], x.amount, x.path)) <==> x in best
  {
    forall i | 0 <= i < |offered| ensures offered[i].Kept? {
      CandidateKept(p, n, offered[i]);
    }
    TopKMeaning(p.mode, p.keep, offered);
    forall k | 0 <= k < |best|
      ensures SameRoute(best[k], x.amount, x.path) <==> best[k] == x
    {
      if best[k].Kept? {
        assert best[k] in offered;
        SameRouteIsEqual(p, n, best[k], x);
      } else {
        CandidateKept(p, n, x);
      }
    }
  }

  // ---- What a walk leaves behind ----

  /** End node, amount and accounts of a path. */
  ghost function EndNode(p: Problem, path: Path): nat
  {
    if path == [] then p.start else path[|path| - 1].target
  }

  /** The guard under which a walk goes on from the end of a path. */
  predicate GoesOn(p: Problem, hopsLeft: nat, amount: real, accounts: nat)
  {
    !(hopsLeft == 0 || p.AccountBudget() < accounts + 4 || amount < 0.0)
  }

  /** The search does not go on beyond a cold mint, when told to avoid them. */
  predicate ColdStop(p: Problem, e: EdgeWithNodes)
  {
    p.avoidColdMints && |p.hotMints| > 0 && e.source !in p.hotMints
  }

  /** The path, extended by the first `upTo` edges out of its end, was offered wherever the
      extension is priced, affordable and does not return to the path; and the filter then let it
      through or had seen enough as large. */
  ghost predicate ExtensionsOffered(p: Problem, path: Path, t: Trace, upTo: nat)
  {
    && EndNode(p, path) < |p.graph| && upTo <= |p.graph[EndNode(p, path)]|
    && PathAmount(p, path).Some? && PathAccounts(p, path).Some?
    && forall k :: 0 <= k < upTo ==>
         ExtensionOffered(p, path, PathAmount(p, path).value, PathAccounts(p, path).value,
                          p.graph[EndNode(p, path)][k], t)
  }

  ghost predicate ExtensionOffered(p: Problem, path: Path, amount: real, accounts: nat, e: EdgeWithNodes, t: Trace)
  {
    !Closes(path, e) && Eligible(p, amount, accounts, e) ==>
      && e.target < |t.offered| && Extension(p, path, amount, e) in t.offered[e.target]
      && (path + [e] in t.accepted
          || Crowded(t.seen, BucketIndex(e.target, accounts + p.edgePrice(e.edge, ToU64(amount)).value.accounts),
                     Extension(p, path, amount, e).amount))
  }

  /** Three amounts at least as large, truncated, were seen in the bucket. */
  ghost predicate Crowded(seen: seq<seq<real>>, bucket: nat, amount: real)
  {
    bucket < |seen| && |seen[bucket]| == 3 && forall i :: 0 <= i < 3 ==> ToU64(seen[bucket][i]) >= ToU64(amount)
  }

  /** Nothing offered or accepted is forgotten, and the amounts seen only rise. */
  ghost predicate Grows(a: Trace, b: Trace)
  {
    && Extends(a.offered, b.offered) && a.accepted <= b.accepted && Rises(a.seen, b.seen)
  }

  ghost predicate Rises(a: seq<seq<real>>, b: seq<seq<real>>)
  {
    |a| == |b| && forall j :: 0 <= j < |a| && |a[j]| == 3 ==>
                    |b[j]| == 3 && forall i :: 0 <= i < 3 ==> ToU64(a[j][i]) <= ToU64(b[j][i])
  }

  ghost predicate WalkedFully(p: Problem, walked: set<Path>, t: Trace)
  {
    forall q :: q in walked ==>
      EndNode(p, q) < |p.graph| && ExtensionsOffered(p, q, t, |p.graph[EndNode(p, q)]|)
  }

  /** Every accepted path was walked on from, unless the guard or a cold mint stopped it, or the
      walk is still under way somewhere below it. */
  ghost predicate AcceptedHandled(p: Problem, accepted: set<Path>, walked: set<Path>, current: Path)
  {
    forall q :: q in accepted ==> q in walked || Stopped(p, q) || q <= current
  }

  ghost predicate Stopped(p: Problem, q: Path)
  {
    && 1 <= |q| <= p.maxPathLength && PathAmount(p, q).Some? && PathAccounts(p, q).Some?
    && (ColdStop(p, q[|q| - 1])
        || !GoesOn(p, p.maxPathLength - |q|, PathAmount(p, q).value, PathAccounts(p, q).value))
  }

  lemma ExtensionsStay(p: Problem, path: Path, a: Trace, b: Trace, upTo: nat)
    requires ExtensionsOffered(p, path, a, upTo) && Grows(a, b)
    ensures ExtensionsOffered(p, path, b, upTo)
  {
    hide ExtensionOffered, Grows;
    forall k | 0 <= k < upTo
      ensures ExtensionOffered(p, path, PathAmount(p, path).value, PathAccounts(p, path).value,
                               p.graph[EndNode(p, path)][k], b)
    {
      ExtensionStays(p, path, PathAmount(p, path).value, PathAccounts(p, path).value,
                     p.graph[EndNode(p, path)][k], a, b);
    }
  }

  lemma ExtensionStays(p: Problem, path: Path, amount: real, accounts: nat, e: EdgeWithNodes, a: Trace, b: Trace)
    requires ExtensionOffered(p, path, amount, accounts, e, a) && Grows(a, b)
    ensures ExtensionOffered(p, path, amount, accounts, e, b)
  {
    hide Closes, ToU64, BucketIndex;
    assert e.target < |a.offered| ==> a.offered[e.target] <= b.offered[e.target];
  }

  lemma WalkedStays(p: Problem, walked: set<Path>, a: Trace, b: Trace)
    requires WalkedFully(p, walked, a) && Grows(a, b)
    ensures WalkedFully(p, walked, b)
  {
    hide ExtensionsOffered, Grows;
    forall q | q in walked
      ensures EndNode(p, q) < |p.graph| && ExtensionsOffered(p, q, b, |p.graph[EndNode(p, q)]|)
    {
      ExtensionsStay(p, q, a, b, |p.graph[EndNode(p, q)]|);
    }
  }

  lemma GrowsTransitive(a: Trace, b: Trace, c: Trace)
    requires Grows(a, b) && Grows(b, c)
    ensures Grows(a, c)
  {
    hide ToU64;
    ExtendsTransitive(a.offered, b.offered, c.offered);
    forall j | 0 <= j < |a.seen| && |a.seen[j]| == 3
      ensures |c.seen[j]| == 3 && forall i :: 0 <= i < 3 ==> ToU64(a.seen[j][i]) <= ToU64(c.seen[j][i])
    {
      assert |b.seen[j]| == 3;
    }
  }

  lemma ToU64Monotone(a: real, b: real)
    requires a <= b
    ensures ToU64(a) <= ToU64(b)
  {
  }

  /** One consultation only raises what was seen, and a refusal means three larger ones. */
  lemma FilteredRises(before: seq<seq<real>>, bucket: nat, amount: real, worth: bool, after: seq<seq<real>>)
    requires Filtered(before, bucket, amount, worth, after)
    ensures Rises(before, after)
    ensures worth || Crowded(after, bucket, amount)
  {
    hide ToU64, WorstKept;
    var values := before[bucket];
    var k := WorstKept(values);
    if worth {
      ToU64Monotone(values[k], amount);
    } else {
      ToU64Monotone(amount, values[k]);
      assert forall i :: 0 <= i < 3 ==> ToU64(values[k]) <= ToU64(values[i]);
    }
  }

  // ---- Buckets of the already-seen filter ----

  /** Index of the bucket for `node` and an account count; eight buckets per node. */
  function BucketIndex(node: nat, accounts: nat): nat
  {
    node * 8 + accounts / 8
  }

  /** Within the account budget, the buckets of different nodes never overlap. */
  lemma BucketsDisjoint(p: Problem, m: nat, a: nat, n: nat, b: nat)
    requires a <= p.AccountBudget() && b <= p.AccountBudget()
    ensures BucketIndex(m, a) == BucketIndex(n, b) ==> m == n && a / 8 == b / 8
    ensures m < |p.graph| ==> BucketIndex(m, a) < 8 * |p.graph|
  {
  }

  /** First position of the least value, compared after the cast to 64 bits. */
  function WorstKept(values: seq<real>): (k: nat)
    requires |values| == 3
    ensures k < 3
    ensures forall i :: 0 <= i < 3 ==> ToU64(values[k]) <= ToU64(values[i])
    ensures forall i :: 0 <= i < k ==> ToU64(values[k]) < ToU64(values[i])
  {
    var a, b, c := ToU64(values[0]), ToU64(values[1]), ToU64(values[2]);
    if a <= b && a <= c then 0 else if b <= c then 1 else 2
  }

  ghost predicate ThreePerBucket(p: Problem, seen: seq<seq<real>>)
  {
    |seen| == 8 * |p.graph| && forall i :: 0 <= i < |seen| ==> |seen[i]| == 3
  }

  /** One consultation of the filter: an amount below the worst of the three values seen in the
      bucket is refused, any other replaces that value. */
  ghost predicate Filtered(before: seq<seq<real>>, bucket: nat, amount: real, worth: bool, after: seq<seq<real>>)
  {
    && bucket < |before| && |before[bucket]| == 3
    && var values := before[bucket];
       var k := WorstKept(values);
       && (worth <==> values[k] <= amount)
       && after == if worth then before[bucket := values[k := amount]] else before
  }

  // ---- The course of a search, as a function ----

  /** What a search has done so far: the candidates offered to each node, the values seen by the
      filter, and the paths it let through. The kept lists play no part in the course. */
  datatype Trace = Trace(offered: seq<seq<Slot>>, seen: seq<seq<real>>, accepted: set<Path>)

  /** The bucket an extension falls into, where the tables have one. */
  ghost function BucketOf(p: Problem, t: Trace, amount: real, accounts: nat, e: EdgeWithNodes): Option<nat>
  {
    if !Eligible(p, amount, accounts, e) || e.target >= |t.offered| then None
    else
      var bucket := BucketIndex(e.target, accounts + p.edgePrice(e.edge, ToU64(amount)).value.accounts);
      if bucket < |t.seen| && |t.seen[bucket]| == 3 then Some(bucket) else None
  }

  /** The filter lets the extension through: it is no smaller than the worst of the three seen. */
  ghost predicate LetThrough(p: Problem, t: Trace, path: Path, amount: real, accounts: nat, e: EdgeWithNodes)
  {
    var bucket := BucketOf(p, t, amount, accounts, e);
    && bucket.Some?
    && var values := t.seen[bucket.value];
       values[WorstKept(values)] <= Extension(p, path, amount, e).amount
  }

  /** The extension of `path` by `e`, offered and run through the filter. */
  ghost function Appended(p: Problem, t: Trace, path: Path, amount: real, accounts: nat, e: EdgeWithNodes): Trace
  {
    var bucket := BucketOf(p, t, amount, accounts, e);
    if bucket.None? then t
    else
      var x, values := Extension(p, path, amount, e), t.seen[bucket.value];
      Trace(t.offered[e.target := t.offered[e.target] + [x]],
            if LetThrough(p, t, path, amount, accounts, e)
            then t.seen[bucket.value := values[WorstKept(values) := x.amount]] else t.seen,
            t.accepted)
  }

  /** Everything done along one edge: nothing if it returns to the path; otherwise the extension is
      offered and, when let through and not stopped at a cold mint, walked on from. */
  ghost function EdgeTrace(p: Problem, t: Trace, path: Path, amount: real, accounts: nat, hops: nat,
                           e: EdgeWithNodes): Trace
    requires hops > 0
    decreases hops, 0, 0
  {
    if Closes(path, e) then t
    else
      var t1 := Appended(p, t, path, amount, accounts, e);
      if !LetThrough(p, t, path, amount, accounts, e) then t1
      else
        var t2 := t1.(accepted := t1.accepted + {path + [e]});
        if ColdStop(p, e) then t2
        else WalkTrace(p, t2, path + [e], Extension(p, path, amount, e).amount,
                       accounts + p.edgePrice(e.edge, ToU64(amount)).value.accounts, hops - 1, e.target)
  }

  /** Everything done along the first `k` edges out of `node`. */
  ghost function EdgesTrace(p: Problem, t: Trace, path: Path, amount: real, accounts: nat, hops: nat, node: nat,
                            k: nat): Trace
    requires hops > 0 && node < |p.graph| && k <= |p.graph[node]|
    decreases hops, 1, k
  {
    if k == 0 then t
    else EdgeTrace(p, EdgesTrace(p, t, path, amount, accounts, hops, node, k - 1),
                   path, amount, accounts, hops, p.graph[node][k - 1])
  }

  ghost function WalkTrace(p: Problem, t: Trace, path: Path, amount: real, accounts: nat, hops: nat, node: nat): Trace
    decreases hops, 2, 0
  {
    if !GoesOn(p, hops, amount, accounts) || node >= |p.graph| then t
    else EdgesTrace(p, t, path, amount, accounts, hops, node, |p.graph[node]|)
  }

  /** The first `k` direct paths. */
  ghost function DirectTrace(p: Problem, t: Trace, k: nat): Trace
    requires p.start < |p.graph| && k <= |p.graph[p.start]|
  {
    if k == 0 then t
    else Appended(p, DirectTrace(p, t, k - 1), [], p.amount as real, 0, p.graph[p.start][k - 1])
  }

  /** The whole search: the direct paths first, then the walk from the start. */
  ghost function SearchTrace(p: Problem, seen: seq<seq<real>>): Trace
    requires p.start < |p.graph|
  {
    var t := DirectTrace(p, Trace(seq(|p.graph|, _ => []), seen, {}), |p.graph[p.start]|);
    WalkTrace(p, t, [], p.amount as real, 0, p.maxPathLength, p.start)
  }

  // ---- The search ----

  /** The mutable state of a search: the kept paths, the path being walked, and the filter. */
  class Search {
    const p: Problem
    var bestPathsByNode: seq<seq<Slot>>
    var path: Path
    var bestByNode: seq<seq<real>>
    /** Every candidate offered to each node so far, in order. */
    ghost var offered: seq<seq<Slot>>
    /** Paths whose end was walked on from, and paths the filter let through. */
    ghost var walked: set<Path>
    ghost var accepted: set<Path>

    ghost predicate Valid()
      reads this
    {
      && p.WellFormed()
      && Tables(p, bestPathsByNode, offered)
      && ThreePerBucket(p, bestByNode)
      && WalkedFully(p, walked, Course())
    }

    ghost function Course(): Trace
      reads this
    {
      Trace(offered, bestByNode, accepted)
    }

    constructor (p: Problem, bestPaths: seq<seq<Slot>>, seen: seq<seq<real>>)
      requires p.WellFormed()
      requires bestPaths == seq(|p.graph|, _ => Padding(p.keep))
      requires ThreePerBucket(p, seen)
      ensures Valid() && this.p == p && path == []
      ensures Course() == Trace(seq(|p.graph|, _ => []), seen, {}) && walked == {}
    {
      this.p := p;
      bestPathsByNode := bestPaths;
      path := [];
      bestByNode := seen;
      offered := seq(|p.graph|, _ => []);
      walked, accepted := {}, {};
      new;
      forall n | 0 <= n < |p.graph| ensures NodeTable(p, n, bestPathsByNode[n], offered[n]) {
        assert Ranked(p.mode, []) == [];
        assert [] + Padding(p.keep) == Padding(p.keep);
      }
    }

    /** Take the walked path extended by `outEdge` into the target's list, if it beats the worst. */
    method KeepIfBetter(outEdge: EdgeWithNodes, outAmount: real)
      requires Valid() && outEdge.target < |p.graph|
      requires IsCandidate(p, outEdge.target, Kept(outAmount, path + [outEdge]))
      modifies `bestPathsByNode, `offered
      ensures Valid()
      ensures Grows(old(Course()), Course())
      ensures offered == old(offered)[outEdge.target :=
                           old(offered)[outEdge.target] + [Kept(outAmount, path + [outEdge])]]
    {
      hide IsCandidate, Tables, Problem.WellFormed, Problem.InGraph, SortByKey, SameRoute, WalkedFully;
      ghost var candidate := Kept(outAmount, path + [outEdge]);
      var target := outEdge.target;
      OfferKeepsTables(p, bestPathsByNode, offered, target, candidate);
      AppendGrows(Course(), target, candidate);
      WalkedStays(p, walked, Course(), Course().(offered := offered[target := offered[target] + [candidate]]));
      TargetAlreadyIn(p, bestPathsByNode, offered, target, candidate);
      var bestPaths := bestPathsByNode[target];
      var worst := bestPaths[|bestPaths| - 1];
      if Better(p.mode, Kept(outAmount, []), worst) {
        bestPaths := ReplaceWorstPath(path, outEdge, outAmount, bestPaths, p.mode);
      }
      bestPathsByNode := bestPathsByNode[target := bestPaths];
      offered := offered[target := offered[target] + [candidate]];
    }

    /** The filter: three values per bucket, the worst of which is replaced unless it is larger. */
    method WorthWalking(target: nat, accounts: nat, outAmount: real) returns (worth: bool)
      requires ThreePerBucket(p, bestByNode) && target < |p.graph| && accounts <= p.AccountBudget()
      modifies `bestByNode
      ensures ThreePerBucket(p, bestByNode)
      ensures Filtered(old(bestByNode), BucketIndex(target, accounts), outAmount, worth, bestByNode)
    {
      BucketsDisjoint(p, target, accounts, target, accounts);
      var bucket := BucketIndex(target, accounts);
      var values := bestByNode[bucket];
      var smaller := WorstKept(values);
      worth := !(values[smaller] > outAmount);
      if worth {
        bestByNode := bestByNode[bucket := values[smaller := outAmount]];
      }
    }

    /** Offer the walked path extended by `outEdge` to the target's list, then let the filter
        decide whether it is worth walking on. */
    method TryAppendToBestResults(inAmount: real, currentAccountCount: nat, outEdge: EdgeWithNodes)
      returns (r: Option<(EdgeInfo, real)>)
      requires Valid() && p.InGraph(outEdge)
      requires IsRoute(p, outEdge.source, path, inAmount, currentAccountCount)
      requires |path| < p.HopBudget() && (path == [] || Onward(p, path + [outEdge]))
      requires forall i :: 0 <= i < |path| ==> path[i].source != outEdge.target
      modifies `bestPathsByNode, `offered, `bestByNode
      ensures Valid()
      ensures Grows(old(Course()), Course())
      ensures Eligible(p, inAmount, currentAccountCount, outEdge) ==>
                offered == old(offered)[outEdge.target := old(offered)[outEdge.target]
                                          + [Extension(p, path, inAmount, outEdge)]]
      ensures Course() == Appended(p, old(Course()), path, inAmount, currentAccountCount, outEdge)
      ensures r.Some? <==> LetThrough(p, old(Course()), path, inAmount, currentAccountCount, outEdge)
      ensures r.Some? || ExtensionOffered(p, path, inAmount, currentAccountCount, outEdge, Course())
      ensures r.Some? ==>
                && Some(r.value.0) == p.edgePrice(outEdge.edge, ToU64(inAmount))
                && r.value.1 == Extension(p, path, inAmount, outEdge).amount
                && IsRoute(p, outEdge.target, path + [outEdge], r.value.1, currentAccountCount + r.value.0.accounts)
    {
      hide IsRoute, IsCandidate, Tables, Problem.WellFormed, Problem.InGraph, ToU64, Filtered, WalkedFully,
           Onward;
      EdgeInBounds(p, outEdge);
      var priced := p.edgePrice(outEdge.edge, ToU64(inAmount));
      if priced.None? || currentAccountCount + priced.value.accounts > p.AccountBudget() {
        return None;
      }
      var edgeInfo := priced.value;
      var outAmount := inAmount * edgeInfo.price;
      OfferedIsCandidate(p, outEdge.source, path, inAmount, currentAccountCount, outEdge, edgeInfo);
      assert Extension(p, path, inAmount, outEdge) == Kept(outAmount, path + [outEdge]);
      KeepIfBetter(outEdge, outAmount);
      label Kept:
      var worth := WorthWalking(outEdge.target, currentAccountCount + edgeInfo.accounts, outAmount);
      r := if worth then Some((edgeInfo, outAmount)) else None;
      ghost var bucket := BucketIndex(outEdge.target, currentAccountCount + edgeInfo.accounts);
      FilteredRises(old@Kept(bestByNode), bucket, outAmount, worth, bestByNode);
      SeenGrows(old@Kept(Course()), bestByNode);
      WalkedStays(p, walked, old@Kept(Course()), Course());
      GrowsTransitive(old(Course()), old@Kept(Course()), Course());
      TablesSize(p, old(bestPathsByNode), old(offered));
      AppendedIs(p, old(Course()), path, inAmount, currentAccountCount, outEdge, worth, bestByNode);
    }
  
    /** The direct paths, offered before the search proper. */
    method OfferDirectPaths()
      requires Valid() && path == []
      modifies this
      ensures Valid() && path == [] && walked == old(walked) && accepted == old(accepted)
      ensures DirectPathsOffered(p, offered, |p.graph[p.start]|)
      ensures Course() == DirectTrace(p, old(Course()), |p.graph[p.start]|)
    {
      hide IsRoute, Tables, Problem.InGraph, ToU64, ThreePerBucket, Filtered, WalkedFully;
      EmptyRoute(p);
      var outEdges := p.graph[p.start];
      var k := 0;
      while k < |outEdges|
        invariant 0 <= k <= |outEdges|
        invariant Valid() && path == [] && walked == old(walked) && accepted == old(accepted)
        invariant DirectPathsOffered(p, offered, k)
        invariant Course() == DirectTrace(p, old(Course()), k)
      {
        OutEdgeInGraph(p, p.start, outEdges[k]);
        label Before:
        var _ := TryAppendToBestResults(p.amount as real, 0, outEdges[k]);
        DirectPathsStay(p, old@Before(Course()), Course(), k);
        TablesSize(p, bestPathsByNode, offered);
        TablesSize(p, old@Before(bestPathsByNode), old@Before(offered));
        k := k + 1;
      }
    }

    /** Walk on from `inputNode` along every edge that does not return to a node of the path. */
    method Walk(inAmount: real, inputNode: nat, maxPathLength: nat, currentAccountCount: nat)
      requires Valid() && inputNode < |p.graph|
      requires IsRoute(p, inputNode, path, inAmount, currentAccountCount)
      requires |path| + maxPathLength == p.maxPathLength && Onward(p, path)
      requires path == [] || !ColdStop(p, path[|path| - 1])
      requires AcceptedHandled(p, accepted, walked, path)
      modifies this
      ensures Valid() && path == old(path)
      ensures Grows(old(Course()), Course()) && old(walked) <= walked
      ensures GoesOn(p, maxPathLength, inAmount, currentAccountCount) ==> path in walked
      ensures AcceptedHandled(p, accepted, walked, path)
      ensures Course() == WalkTrace(p, old(Course()), path, inAmount, currentAccountCount, maxPathLength, inputNode)
      decreases maxPathLength
    {
      hide IsRoute, Tables, Problem.WellFormed, Problem.InGraph, ToU64, ThreePerBucket, Eligible, Filtered,
           WalkedFully, ExtensionsOffered, Stopped, ColdStop, Onward, EndsThere;
      if maxPathLength == 0 || p.AccountBudget() < currentAccountCount + 4 || inAmount < 0.0 {
        return;
      }
      var outEdges := p.graph[inputNode];
      WalkStart(p, inputNode, path, inAmount, currentAccountCount, Course());
      GrowsAlways(Course());
      NotEnding(p, inputNode, path, inAmount, currentAccountCount);
      var k := 0;
      while k < |outEdges|
        invariant 0 <= k <= |outEdges|
        invariant Valid() && path == old(path)
        invariant Grows(old(Course()), Course()) && old(walked) <= walked
        invariant ExtensionsOffered(p, path, Course(), k)
        invariant AcceptedHandled(p, accepted, walked, path)
        invariant Course() == EdgesTrace(p, old(Course()), path, inAmount, currentAccountCount, maxPathLength,
                                         inputNode, k)
      {
        label Before:
        WalkEdge(inAmount, inputNode, maxPathLength, currentAccountCount, k);
        GrowsTransitive(old(Course()), old@Before(Course()), Course());
        k := k + 1;
      }
      WalkDone(p, inputNode, path, inAmount, currentAccountCount, walked, Course());
      walked := walked + {path};
    }

    /** One turn of the loop of `Walk`. */
    method WalkEdge(inAmount: real, inputNode: nat, maxPathLength: nat, currentAccountCount: nat, k: nat)
      requires Valid() && inputNode < |p.graph| && k < |p.graph[inputNode]|
      requires IsRoute(p, inputNode, path, inAmount, currentAccountCount)
      requires maxPathLength > 0 && |path| + maxPathLength == p.maxPathLength
      requires Onward(p, path) && !EndsThere(p, path)
      requires ExtensionsOffered(p, path, Course(), k)
      requires AcceptedHandled(p, accepted, walked, path)
      modifies this
      ensures Valid() && path == old(path)
      ensures Grows(old(Course()), Course()) && old(walked) <= walked
      ensures ExtensionsOffered(p, path, Course(), k + 1)
      ensures AcceptedHandled(p, accepted, walked, path)
      ensures Course() == EdgeTrace(p, old(Course()), path, inAmount, currentAccountCount, maxPathLength,
                                    p.graph[inputNode][k])
      decreases maxPathLength, 0
    {
      hide IsRoute, Tables, Problem.WellFormed, Problem.InGraph, ToU64, ThreePerBucket, Eligible, Filtered,
           WalkedFully, ExtensionsOffered, AcceptedHandled, Onward, EndsThere;
      var outEdge := p.graph[inputNode][k];
      OutEdgeInGraph(p, inputNode, outEdge);
      if Closes(path, outEdge) {
        NextExtension(p, inputNode, path, inAmount, currentAccountCount, k, Course());
        GrowsAlways(Course());
        return;
      }
      OnwardStep(p, path, outEdge);
      var appended := TryAppendToBestResults(inAmount, currentAccountCount, outEdge);
      ExtensionsStay(p, path, old(Course()), Course(), k);
      TablesSize(p, bestPathsByNode, offered);
      if appended.None? {
        NextExtension(p, inputNode, path, inAmount, currentAccountCount, k, Course());
        return;
      }
      var (edgeInfo, outAmount) := appended.value;
      label Appended:
      accepted := accepted + {path + [outEdge]};
      AcceptGrows(old@Appended(Course()), path + [outEdge]);
      WalkedStays(p, walked, old@Appended(Course()), Course());
      GrowsTransitive(old(Course()), old@Appended(Course()), Course());
      ExtensionsStay(p, path, old@Appended(Course()), Course(), k);
      NextExtension(p, inputNode, path, inAmount, currentAccountCount, k, Course());
      HandledDown(p, old(accepted), walked, path, outEdge);
      if ColdStop(p, outEdge) {
        StoppedHere(p, outEdge.target, path + [outEdge], outAmount, currentAccountCount + edgeInfo.accounts);
        HandledUp(p, accepted, walked, path, outEdge);
        return;
      }
      path := path + [outEdge];
      label Inner:
      Walk(outAmount, outEdge.target, maxPathLength - 1, currentAccountCount + edgeInfo.accounts);
      GrowsTransitive(old(Course()), old@Inner(Course()), Course());
      if !GoesOn(p, maxPathLength - 1, outAmount, currentAccountCount + edgeInfo.accounts) {
        StoppedHere(p, outEdge.target, path, outAmount, currentAccountCount + edgeInfo.accounts);
      }
      path := path[..|path| - 1];
      HandledUp(p, accepted, walked, path, outEdge);
      ExtensionsStay(p, path, old@Inner(Course()), Course(), k + 1);
    }
  }

  lemma NotEnding(p: Problem, node: nat, path: Path, amount: real, accounts: nat)
    requires |path| <= p.maxPathLength && (path == [] || !ColdStop(p, path[|path| - 1]))
    requires IsRoute(p, node, path, amount, accounts) && GoesOn(p, p.maxPathLength - |path|, amount, accounts)
    ensures !EndsThere(p, path)
  {
  }

  lemma OnwardStep(p: Problem, path: Path, e: EdgeWithNodes)
    requires Onward(p, path) && !EndsThere(p, path)
    ensures Onward(p, path + [e])
  {
    hide EndsThere;
    forall j | 0 <= j < |path + [e]| ensures !EndsThere(p, (path + [e])[..j]) {
      assert (path + [e])[..j] == path[..j];
      assert path[..|path|] == path;
    }
  }

  lemma GrowsAlways(t: Trace)
    ensures Grows(t, t)
  {
  }

  lemma SeenGrows(t: Trace, seen: seq<seq<real>>)
    requires Rises(t.seen, seen)
    ensures Grows(t, t.(seen := seen))
  {
  }

  lemma AcceptGrows(t: Trace, q: Path)
    ensures Grows(t, t.(accepted := t.accepted + {q}))
  {
  }

  lemma AppendGrows(t: Trace, n: nat, x: Slot)
    requires n < |t.offered|
    ensures Grows(t, t.(offered := t.offered[n := t.offered[n] + [x]]))
  {
  }

  /** Offering and filtering, put together. */
  lemma AppendedIs(p: Problem, t: Trace, path: Path, amount: real, accounts: nat, e: EdgeWithNodes, worth: bool,
                   seen: seq<seq<real>>)
    requires |t.offered| == |p.graph| && e.target < |p.graph| && Eligible(p, amount, accounts, e)
    requires Filtered(t.seen, BucketIndex(e.target, accounts + p.edgePrice(e.edge, ToU64(amount)).value.accounts),
                      Extension(p, path, amount, e).amount, worth, seen)
    ensures worth <==> LetThrough(p, t, path, amount, accounts, e)
    ensures Appended(p, t, path, amount, accounts, e)
            == Trace(t.offered[e.target := t.offered[e.target] + [Extension(p, path, amount, e)]], seen, t.accepted)
  {
    hide ToU64, WorstKept, BucketOf, BucketIndex, Extension;
    BucketIs(p, t, amount, accounts, e);
  }

  lemma BucketIs(p: Problem, t: Trace, amount: real, accounts: nat, e: EdgeWithNodes)
    requires Eligible(p, amount, accounts, e) && e.target < |t.offered|
    ensures var bucket := BucketIndex(e.target, accounts + p.edgePrice(e.edge, ToU64(amount)).value.accounts);
            bucket < |t.seen| && |t.seen[bucket]| == 3 ==> BucketOf(p, t, amount, accounts, e) == Some(bucket)
  {
    hide ToU64, BucketIndex;
  }

  lemma HandledDown(p: Problem, accepted: set<Path>, walked: set<Path>, path: Path, e: EdgeWithNodes)
    requires AcceptedHandled(p, accepted, walked, path)
    ensures AcceptedHandled(p, accepted + {path + [e]}, walked, path + [e])
  {
    hide Stopped;
    assert path <= path + [e];
  }

  lemma HandledUp(p: Problem, accepted: set<Path>, walked: set<Path>, path: Path, e: EdgeWithNodes)
    requires AcceptedHandled(p, accepted, walked, path + [e])
    requires path + [e] in walked || Stopped(p, path + [e])
    ensures AcceptedHandled(p, accepted, walked, path)
  {
    hide Stopped;
    forall q | q in accepted && q <= path + [e] && q != path + [e]
      ensures q <= path
    {
      assert |q| <= |path|;
    }
  }

  lemma WalkStart(p: Problem, node: nat, path: Path, amount: real, accounts: nat, t: Trace)
    requires node < |p.graph| && IsRoute(p, node, path, amount, accounts)
    ensures ExtensionsOffered(p, path, t, 0)
  {
  }

  lemma WalkDone(p: Problem, node: nat, path: Path, amount: real, accounts: nat, walked: set<Path>,
                 t: Trace)
    requires node < |p.graph| && IsRoute(p, node, path, amount, accounts)
    requires WalkedFully(p, walked, t) && ExtensionsOffered(p, path, t, |p.graph[node]|)
    ensures WalkedFully(p, walked + {path}, t)
  {
    hide ExtensionsOffered;
    assert EndNode(p, path) == node;
  }

  lemma NextExtension(p: Problem, node: nat, path: Path, amount: real, accounts: nat, k: nat, t: Trace)
    requires node < |p.graph| && k < |p.graph[node]| && IsRoute(p, node, path, amount, accounts)
    requires ExtensionsOffered(p, path, t, k)
    requires ExtensionOffered(p, path, amount, accounts, p.graph[node][k], t)
    ensures ExtensionsOffered(p, path, t, k + 1)
  {
    hide ExtensionOffered;
    assert EndNode(p, path) == node;
  }

  lemma StoppedHere(p: Problem, node: nat, q: Path, amount: real, accounts: nat)
    requires 1 <= |q| <= p.maxPathLength && IsRoute(p, node, q, amount, accounts)
    requires ColdStop(p, q[|q| - 1]) || !GoesOn(p, p.maxPathLength - |q|, amount, accounts)
    ensures Stopped(p, q)
  {
  }

  /** Whether the edge would return to a node the path already left. */
  predicate Closes(path: Path, e: EdgeWithNodes)
  {
    exists i :: 0 <= i < |path| && path[i].source == e.target
  }

  lemma OutEdgeInGraph(p: Problem, n: nat, e: EdgeWithNodes)
    requires p.WellFormed() && n < |p.graph| && e in p.graph[n]
    ensures p.InGraph(e) && e.source == n && e.target < |p.graph|
  {
  }

  lemma ExtendsTransitive(a: seq<seq<Slot>>, b: seq<seq<Slot>>, c: seq<seq<Slot>>)
    requires Extends(a, b) && Extends(b, c)
    ensures Extends(a, c)
  {
    forall n | 0 <= n < |a| ensures a[n] <= c[n] {
      assert a[n] <= b[n] && b[n] <= c[n];
    }
  }

  /** `e` is priced at this amount and fits the account budget. */
  predicate Eligible(p: Problem, amount: real, accounts: nat, e: EdgeWithNodes)
  {
    var info := p.edgePrice(e.edge, ToU64(amount));
    info.Some? && accounts + info.value.accounts <= p.AccountBudget()
  }

  /** The candidate made by extending `path` with `e`. */
  function Extension(p: Problem, path: Path, amount: real, e: EdgeWithNodes): Slot
    requires p.edgePrice(e.edge, ToU64(amount)).Some?
  {
    Kept(amount * p.edgePrice(e.edge, ToU64(amount)).value.price, path + [e])
  }

  lemma EdgeInBounds(p: Problem, e: EdgeWithNodes)
    requires p.WellFormed() && p.InGraph(e)
    ensures e.source < |p.graph| && e.target < |p.graph|
  {
  }

  lemma OfferedIsCandidate(p: Problem, node: nat, path: Path, amount: real, accounts: nat, e: EdgeWithNodes,
                           info: EdgeInfo)
    requires IsRoute(p, node, path, amount, accounts) && |path| < p.HopBudget()
    requires path == [] || Onward(p, path + [e])
    requires p.InGraph(e) && e.source == node
    requires forall i :: 0 <= i < |path| ==> path[i].source != e.target
    requires p.edgePrice(e.edge, ToU64(amount)) == Some(info)
    requires accounts + info.accounts <= p.AccountBudget()
    ensures IsRoute(p, e.target, path + [e], amount * info.price, accounts + info.accounts)
    ensures IsCandidate(p, e.target, Kept(amount * info.price, path + [e]))
  {
    hide IsRoute;
    ExtendRoute(p, node, path, amount, accounts, e, info);
  }

  lemma TargetAlreadyIn(p: Problem, best: seq<seq<Slot>>, offered: seq<seq<Slot>>, n: nat, x: Slot)
    requires p.WellFormed() && Tables(p, best, offered) && n < |p.graph| && IsCandidate(p, n, x)
    ensures |best| == |p.graph| && |best[n]| == p.keep
    ensures (exists k :: 0 <= k < |best[n]| && SameRoute(best[n][k], x.amount, x.path)) <==> x in best[n]
  {
    hide IsCandidate;
    AlreadyIn(p, n, best[n], offered[n], x);
  }

  // ---- The whole search ----

  /** The paths handed to the caller: padding is dropped, and in ExactIn mode so are negative amounts. */
  function GoodPaths(mode: SwapMode, best: seq<Slot>): seq<(real, Path)>
  {
    if best == [] then []
    else
      (if best[0].Kept? && (mode.ExactIn? ==> best[0].amount >= 0.0) then [(best[0].amount, best[0].path)] else [])
      + GoodPaths(mode, best[1..])
  }

  /** Every direct edge out of the start that is priced and affordable was offered. */
  ghost predicate DirectPathsOffered(p: Problem, offered: seq<seq<Slot>>, upTo: nat)
    requires p.start < |p.graph| && upTo <= |p.graph[p.start]|
  {
    forall k :: 0 <= k < upTo ==>
      var e := p.graph[p.start][k];
      Eligible(p, p.amount as real, 0, e) ==>
        e.target < |offered| && Extension(p, [], p.amount as real, e) in offered[e.target]
  }

  lemma DirectPathsStay(p: Problem, a: Trace, b: Trace, upTo: nat)
    requires p.start < |p.graph| && upTo <= |p.graph[p.start]|
    requires DirectPathsOffered(p, a.offered, upTo) && Grows(a, b)
    ensures DirectPathsOffered(p, b.offered, upTo)
  {
    forall k | 0 <= k < upTo && Eligible(p, p.amount as real, 0, p.graph[p.start][k])
      ensures var e := p.graph[p.start][k];
              e.target < |b.offered| && Extension(p, [], p.amount as real, e) in b.offered[e.target]
    {
      var e := p.graph[p.start][k];
      assert a.offered[e.target] <= b.offered[e.target];
    }
  }

  /** From every path in `walked` all extensions were offered, and it holds every path the filter
      accepted, and the empty one, except where a limit stopped the walk. */
  ghost predicate Closed(p: Problem, t: Trace, walked: set<Path>)
  {
    && WalkedFully(p, walked, t) && AcceptedHandled(p, t.accepted, walked, [])
    && (GoesOn(p, p.maxPathLength, p.amount as real, 0) ==> [] in walked)
  }

  // ---- The same, without the search's own guards ----

  /** Extending a path by an edge: its end and budget allow it, and the target is not left by any hop
      of the path. */
  ghost predicate MayExtend(p: Problem, q: Path, e: EdgeWithNodes, info: EdgeInfo)
  {
    && (if q == [] then e.source == p.start else e.source == q[|q| - 1].target)
    && (forall i :: 0 <= i < |q| ==> q[i].source != e.target)
    && PathAmount(p, q).Some? && PathAccounts(p, q).Some?
    && p.edgePrice(e.edge, ToU64(PathAmount(p, q).value)) == Some(info)
    && PathAccounts(p, q).value + info.accounts <= p.maxAccounts
    && PathAccounts(p, q).value + info.accounts <= 40
  }

  /** Nothing is missed: of every path walked on, each possible extension was offered to the mint it
      leads to, for its amount times its price; walked on were the empty path and every path the
      filter accepted, unless it ends there; and accepted was every such extension, unless in its
      bucket of eight account counts three amounts as large had been seen. */
  ghost predicate Complete(p: Problem, t: Trace, walked: set<Path>)
  {
    && ([] in walked || EndsThere(p, []))
    && (forall q :: q in t.accepted ==> q in walked || EndsThere(p, q))
    && (forall q, e, info :: q in walked && p.InGraph(e) && MayExtend(p, q, e, info) ==>
          OfferedOn(t, q, e, PathAmount(p, q).value, PathAccounts(p, q).value, info))
    && (forall e, info :: p.InGraph(e) && MayExtend(p, [], e, info) ==>
          OfferedTo(t.offered, e.target, p.amount as real, info.price, [e]))
  }

  /** Three amounts at least as large as the product were seen in the bucket of node and account count. */
  ghost predicate CrowdedOut(seen: seq<seq<real>>, node: nat, amount: real, price: real, accounts: nat)
  {
    exists bucket, out :: bucket == 8 * node + accounts / 8 && out == amount * price && Crowded(seen, bucket, out)
  }

  /** The extension was offered, and accepted or crowded out. */
  ghost predicate OfferedOn(t: Trace, q: Path, e: EdgeWithNodes, amount: real, accounts: nat, info: EdgeInfo)
  {
    && OfferedTo(t.offered, e.target, amount, info.price, q + [e])
    && (q + [e] in t.accepted || CrowdedOut(t.seen, e.target, amount, info.price, accounts + info.accounts))
  }

  /** The path was offered to the node, for the amount before its last hop times the price of that hop. */
  ghost predicate OfferedTo(offered: seq<seq<Slot>>, node: nat, amount: real, price: real, path: Path)
  {
    node < |offered| && exists x :: x in offered[node] && x.Kept? && x.path == path && x.amount == amount * price
  }

  /** The paths returned for a mint: the best of those offered to it, best first, none twice. A
      negative amount is returned only for an exact output. */
  ghost predicate BestOf(p: Problem, offered: seq<Slot>, good: seq<(real, Path)>)
  {
    && |good| <= p.keep
    && (forall i :: 0 <= i < |good| ==>
          Kept(good[i].0, good[i].1) in offered && (p.mode == ExactIn ==> good[i].0 >= 0.0))
    && (forall i, j :: 0 <= i < j < |good| ==> Precedes(p.mode, offered, good[i], good[j]))
    && (forall amount: real, path :: Kept(amount, path) in offered && (p.mode == ExactIn ==> amount >= 0.0)
                                     && (amount, path) !in good ==>
          |good| == p.keep && forall i :: 0 <= i < p.keep ==> Precedes(p.mode, offered, good[i], (amount, path)))
  }

  /** One path with its amount comes before another: the larger output or smaller input does, and of
      equal ones that offered first. */
  ghost predicate Precedes(mode: SwapMode, offered: seq<Slot>, x: (real, Path), y: (real, Path))
  {
    && x != y
    && (if mode == ExactIn then x.0 >= y.0 else x.0 <= y.0)
    && (x.0 == y.0 ==>
          exists a :: 0 <= a < |offered| && offered[a] == Kept(x.0, x.1)
                      && forall b :: 0 <= b <= a ==> offered[b] != Kept(y.0, y.1))
  }

  lemma AbovePrecedes(mode: SwapMode, offered: seq<Slot>, x: (real, Path), y: (real, Path))
    requires Above(mode, offered, Kept(x.0, x.1), Kept(y.0, y.1))
    ensures Precedes(mode, offered, x, y)
  {
    if x.0 == y.0 {
      var a :| && 0 <= a < |offered| && offered[a] == Kept(x.0, x.1)
               && forall b :: 0 <= b <= a ==> offered[b] != Kept(y.0, y.1);
    }
  }

  /** Each listed path is above the later ones. */
  ghost predicate Falling(mode: SwapMode, offered: seq<Slot>, good: seq<(real, Path)>)
  {
    forall i, j :: 0 <= i < j < |good| ==>
      Above(mode, offered, Kept(good[i].0, good[i].1), Kept(good[j].0, good[j].1))
  }

  lemma FallingCons(mode: SwapMode, offered: seq<Slot>, x: (real, Path), rest: seq<(real, Path)>)
    requires Falling(mode, offered, rest)
    requires forall i :: 0 <= i < |rest| ==> Above(mode, offered, Kept(x.0, x.1), Kept(rest[i].0, rest[i].1))
    ensures Falling(mode, offered, [x] + rest)
  {
    hide Above;
  }

  /** Filtering keeps what holds between earlier and later paths. */
  lemma {:induction false} GoodPathsAbove(mode: SwapMode, offered: seq<Slot>, best: seq<Slot>)
    requires forall i, j :: 0 <= i < j < |best| && best[j].Kept? ==> Above(mode, offered, best[i], best[j])
    ensures Falling(mode, offered, GoodPaths(mode, best))
  {
    hide Above, Falling;
    if best == [] {
      NoneFalling(mode, offered);
    } else {
      var tail, rest := best[1..], GoodPaths(mode, best[1..]);
      forall i, j | 0 <= i < j < |tail| && tail[j].Kept? ensures Above(mode, offered, tail[i], tail[j]) {
        assert tail[i] == best[i + 1] && tail[j] == best[j + 1];
      }
      GoodPathsAbove(mode, offered, tail);
      GoodPathsFilter(mode, tail);
      if IsGood(mode, best[0]) {
        var x := (best[0].amount, best[0].path);
        assert GoodPaths(mode, best) == [x] + rest;
        hide GoodPaths, IsGood;
        forall i | 0 <= i < |rest| ensures Above(mode, offered, Kept(x.0, x.1), Kept(rest[i].0, rest[i].1)) {
          var k :| 0 <= k < |tail| && tail[k] == Kept(rest[i].0, rest[i].1);
          assert best[k + 1] == tail[k];
        }
        FallingCons(mode, offered, x, rest);
      } else {
        assert GoodPaths(mode, best) == [] + rest == rest;
      }
    }
  }

  lemma NoneFalling(mode: SwapMode, offered: seq<Slot>)
    ensures Falling(mode, offered, [])
  {
  }

  lemma GoodPathsMean(p: Problem, offered: seq<Slot>)
    requires p.keep >= 1 && forall i :: 0 <= i < |offered| ==> offered[i].Kept?
    ensures BestOf(p, offered, GoodPaths(p.mode, BestK(p.mode, p.keep, offered)))
  {
    var best := BestK(p.mode, p.keep, offered);
    var good := GoodPaths(p.mode, best);
    GoodPathsAreBest(p.mode, p.keep, offered);
    GoodPathsFilter(p.mode, best);
    GoodOrder(p, offered);
    hide BestK, GoodPaths, Sorted, Precedes;
  }

  lemma GoodOrder(p: Problem, offered: seq<Slot>)
    requires p.keep >= 1 && forall i :: 0 <= i < |offered| ==> offered[i].Kept?
    ensures var best := BestK(p.mode, p.keep, offered);
            var good := GoodPaths(p.mode, best);
            && (forall i, j :: 0 <= i < j < |good| ==> Precedes(p.mode, offered, good[i], good[j]))
            && (forall y: (real, Path), i :: Kept(y.0, y.1) in offered && Kept(y.0, y.1) !in best && 0 <= i < |good| ==>
                  Precedes(p.mode, offered, good[i], y))
  {
    var best := BestK(p.mode, p.keep, offered);
    var good := GoodPaths(p.mode, best);
    GoodPathsFilter(p.mode, best);
    TiesMeaning(p.mode, p.keep, offered);
    GoodPathsAbove(p.mode, offered, best);
    hide BestK, GoodPaths, Above, Precedes;
    forall i, j | 0 <= i < j < |good| ensures Precedes(p.mode, offered, good[i], good[j]) {
      AbovePrecedes(p.mode, offered, good[i], good[j]);
    }
    forall y: (real, Path), i | Kept(y.0, y.1) in offered && Kept(y.0, y.1) !in best && 0 <= i < |good|
      ensures Precedes(p.mode, offered, good[i], y)
    {
      var k :| 0 <= k < |best| && best[k] == Kept(good[i].0, good[i].1);
      AbovePrecedes(p.mode, offered, good[i], y);
    }
  }

  lemma ClosedMeans(p: Problem, t: Trace, walked: set<Path>)
    requires p.WellFormed() && Closed(p, t, walked) && DirectPathsOffered(p, t.offered, |p.graph[p.start]|)
    ensures Complete(p, t, walked)
  {
    hide WalkedFully, AcceptedHandled, ExtensionsOffered, DirectPathsOffered, EndsThere, OfferedOn, OfferedTo, ToU64,
         Problem.WellFormed;
    EmptyEnds(p, t, walked);
    forall q | q in t.accepted ensures q in walked || EndsThere(p, q) {
      AcceptedMeans(p, t, walked, q);
    }
    forall q, e, info | q in walked && p.InGraph(e) && MayExtend(p, q, e, info)
      ensures OfferedOn(t, q, e, PathAmount(p, q).value, PathAccounts(p, q).value, info)
    {
      WalkedMeans(p, t, walked, q, e, info);
    }
    forall e, info | p.InGraph(e) && MayExtend(p, [], e, info)
      ensures OfferedTo(t.offered, e.target, p.amount as real, info.price, [e])
    {
      DirectMeans(p, t.offered, e, info);
    }
  }

  lemma EmptyEnds(p: Problem, t: Trace, walked: set<Path>)
    requires GoesOn(p, p.maxPathLength, p.amount as real, 0) ==> [] in walked
    ensures [] in walked || EndsThere(p, [])
  {
    assert PathAmount(p, []) == Some(p.amount as real) && PathAccounts(p, []) == Some(0);
  }

  lemma AcceptedMeans(p: Problem, t: Trace, walked: set<Path>, q: Path)
    requires AcceptedHandled(p, t.accepted, walked, []) && q in t.accepted && ([] in walked || EndsThere(p, []))
    ensures q in walked || EndsThere(p, q)
  {
    if q !in walked && !(q <= []) {
      assert Stopped(p, q);
    }
  }

  lemma WalkedMeans(p: Problem, t: Trace, walked: set<Path>, q: Path, e: EdgeWithNodes, info: EdgeInfo)
    requires WalkedFully(p, walked, t) && q in walked && p.InGraph(e) && MayExtend(p, q, e, info)
    ensures OfferedOn(t, q, e, PathAmount(p, q).value, PathAccounts(p, q).value, info)
  {
    hide ToU64, OfferedOn, ExtensionOffered;
    var list := p.graph[EndNode(p, q)];
    var k :| 0 <= k < |list| && list[k] == e;
    assert ExtensionOffered(p, q, PathAmount(p, q).value, PathAccounts(p, q).value, e, t);
    assert !Closes(q, e);
    OfferedMeans(p, t, q, e, PathAmount(p, q).value, PathAccounts(p, q).value, info);
  }

  lemma OfferedMeans(p: Problem, t: Trace, q: Path, e: EdgeWithNodes, amount: real, accounts: nat, info: EdgeInfo)
    requires ExtensionOffered(p, q, amount, accounts, e, t) && !Closes(q, e)
    requires p.edgePrice(e.edge, ToU64(amount)) == Some(info) && accounts + info.accounts <= p.AccountBudget()
    ensures OfferedOn(t, q, e, amount, accounts, info)
  {
    hide ToU64, Closes;
    assert Eligible(p, amount, accounts, e);
    var x := Extension(p, q, amount, e);
    assert x.amount == amount * info.price && x.path == q + [e];
    assert OfferedTo(t.offered, e.target, amount, info.price, q + [e]) by {
      assert x in t.offered[e.target];
    }
    if q + [e] !in t.accepted {
      assert Crowded(t.seen, BucketIndex(e.target, accounts + info.accounts), x.amount);
    }
  }

  lemma DirectMeans(p: Problem, offered: seq<seq<Slot>>, e: EdgeWithNodes, info: EdgeInfo)
    requires p.start < |p.graph| && DirectPathsOffered(p, offered, |p.graph[p.start]|)
    requires p.InGraph(e) && MayExtend(p, [], e, info)
    ensures OfferedTo(offered, e.target, p.amount as real, info.price, [e])
  {
    assert PathAmount(p, []) == Some(p.amount as real) && PathAccounts(p, []) == Some(0);
    var k :| 0 <= k < |p.graph[p.start]| && p.graph[p.start][k] == e;
    assert [] + [e] == [e];
    assert Eligible(p, p.amount as real, 0, e);
    assert Extension(p, [], p.amount as real, e) == Kept(p.amount as real * info.price, [e]);
  }

  /** For each node, the good ones among the `keep` best distinct candidates that the search
      offered to it; all candidates are routes inside the budgets, and nothing is missed. */
  method BestPricePathsDepthSearch(p: Problem, bestPathsPrealloc: seq<seq<Slot>>, bestByNodePrealloc: seq<seq<real>>)
    returns (goodPaths: seq<seq<(real, Path)>>)
    requires p.WellFormed()
    requires bestPathsPrealloc == seq(|p.graph|, _ => Padding(p.keep))
    requires ThreePerBucket(p, bestByNodePrealloc)
    ensures var t := SearchTrace(p, bestByNodePrealloc);
            && |goodPaths| == |t.offered| == |p.graph|
            && (forall n :: 0 <= n < |p.graph| ==>
                  && BestOf(p, t.offered[n], goodPaths[n])
                  && (forall i :: 0 <= i < |t.offered[n]| ==> IsCandidate(p, n, t.offered[n][i])))
            && exists walked: set<Path> :: Complete(p, t, walked)
  {
    hide IsCandidate, IsRoute, WalkedFully, Stopped, GoodPaths, WalkTrace, DirectTrace, Complete, BestOf;
    var search := new Search(p, bestPathsPrealloc, bestByNodePrealloc);
    search.OfferDirectPaths();
    ghost var afterDirect := search.Course();
    EmptyRoute(p);
    search.Walk(p.amount as real, p.start, p.maxPathLength, 0);
    DirectPathsStay(p, afterDirect, search.Course(), |p.graph[p.start]|);
    ghost var offered := search.offered;
    assert Closed(p, search.Course(), search.walked);
    ClosedMeans(p, search.Course(), search.walked);
    goodPaths := [];
    var n := 0;
    while n < |p.graph|
      invariant 0 <= n <= |p.graph| && |goodPaths| == n
      invariant Tables(p, search.bestPathsByNode, offered)
      invariant forall m :: 0 <= m < n ==> goodPaths[m] == GoodPaths(p.mode, search.bestPathsByNode[m])
    {
      goodPaths := goodPaths + [GoodPaths(p.mode, search.bestPathsByNode[n])];
      n := n + 1;
    }
    forall m | 0 <= m < |p.graph|
      ensures NodeTable(p, m, search.bestPathsByNode[m], offered[m]) && BestOf(p, offered[m], goodPaths[m])
    {
      assert NodeTable(p, m, search.bestPathsByNode[m], offered[m]);
      forall i | 0 <= i < |offered[m]| ensures offered[m][i].Kept? {
        CandidateKept(p, m, offered[m][i]);
      }
      GoodPathsMean(p, offered[m]);
    }
  }

  lemma TablesSize(p: Problem, best: seq<seq<Slot>>, offered: seq<seq<Slot>>)
    requires Tables(p, best, offered)
    ensures |best| == |offered| == |p.graph|
  {
  }

  predicate IsGood(mode: SwapMode, x: Slot)
  {
    x.Kept? && (mode.ExactIn? ==> x.amount >= 0.0)
  }

  /** Filtering keeps exactly the good slots. */
  lemma {:induction false} GoodPathsFilter(mode: SwapMode, best: seq<Slot>)
    ensures var good := GoodPaths(mode, best);
            && |good| <= |best|
            && (forall i :: 0 <= i < |good| ==>
                  var x := Kept(good[i].0, good[i].1);
                  x in best && IsGood(mode, x))
            && (forall x :: x in best && IsGood(mode, x) ==> (x.amount, x.path) in good)
            && ((forall i :: 0 <= i < |best| ==> IsGood(mode, best[i])) ==> |good| == |best|)
  {
    if best != [] {
      GoodPathsFilter(mode, best[1..]);
      assert best == [best[0]] + best[1..];
    }
  }

  /** Filtering a sorted list keeps its order. */
  lemma {:induction false} GoodPathsOrdered(mode: SwapMode, best: seq<Slot>)
    requires Sorted(mode, best)
    ensures var good := GoodPaths(mode, best);
            forall i, j :: 0 <= i < j < |good| ==>
              !Better(mode, Kept(good[j].0, good[j].1), Kept(good[i].0, good[i].1))
  {
    if best != [] {
      var tail, rest := best[1..], GoodPaths(mode, best[1..]);
      GoodPathsOrdered(mode, tail);
      GoodPathsFilter(mode, tail);
      assert GoodPaths(mode, best) == (if IsGood(mode, best[0]) then [(best[0].amount, best[0].path)] else []) + rest;
      hide GoodPaths, IsGood, Better;
      forall i | 0 <= i < |rest|
        ensures !Better(mode, Kept(rest[i].0, rest[i].1), best[0])
      {
        var k :| 0 <= k < |tail| && tail[k] == Kept(rest[i].0, rest[i].1);
        assert best[k + 1] == tail[k];
      }
    }
  }

  /** What the caller gets for a node: at most `keep` paths, best first, all of them offered;
      and a good offered path that is missing lost to `keep` paths that are no worse. */
  lemma GoodPathsAreBest(mode: SwapMode, keep: nat, offered: seq<Slot>)
    requires keep >= 1
    requires forall i :: 0 <= i < |offered| ==> offered[i].Kept?
    ensures var good := GoodPaths(mode, BestK(mode, keep, offered));
            && |good| <= keep
            && (forall i, j :: 0 <= i < j < |good| ==>
                  !Better(mode, Kept(good[j].0, good[j].1), Kept(good[i].0, good[i].1)))
            && (forall i :: 0 <= i < |good| ==> Kept(good[i].0, good[i].1) in offered)
            && (forall x :: x in offered && IsGood(mode, x) && (x.amount, x.path) !in good ==>
                  && |good| == keep
                  && forall i :: 0 <= i < keep ==> !Better(mode, x, Kept(good[i].0, good[i].1)))
  {
    var best := BestK(mode, keep, offered);
    TopKMeaning(mode, keep, offered);
    GoodPathsFilter(mode, best);
    GoodPathsOrdered(mode, best);
    forall x | x in offered && IsGood(mode, x) && x !in best
      ensures forall i :: 0 <= i < keep ==> IsGood(mode, best[i])
    {
    }
  }

  lemma EmptyRoute(p: Problem)
    ensures IsRoute(p, p.start, [], p.amount as real, 0)
  {
  }
}
