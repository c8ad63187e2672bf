/** The pruning of the edge graph before a search (select_best_pools in routing.rs). Mints are
    their node indices; the price impact of an edge is a parameter. Sorting is unstable and hash
    tables are traversed in any order, so both are modelled by methods that promise no more. */
module PoolPruning {
  import opened Common
  import opened EdgeStates

  /** What pruning reads of an edge. `impact` is None where it cannot be computed. */
  datatype Edge = Edge(source: nat, target: nat, valid: bool, prices: seq<Price>, impact: Option<real>,
                       supportsExactOut: bool)

  datatype Config = Config(
    edges: seq<Edge>,
    mintCount: nat,
    warmingCount: nat,
    hotMints: set<nat>,
    maxCountForHot: nat,
    maxCountForCold: nat,
    mode: SwapMode)
  {
    /** Mints are known; a valid edge has one price per warming amount; at least one edge is to be
        kept per pair. */
    ghost predicate WellFormed()
    {
      && maxCountForHot >= 1 && maxCountForCold >= 1
      && (forall e :: 0 <= e < |edges| ==> edges[e].source < mintCount && edges[e].target < mintCount)
      && (forall e :: 0 <= e < |edges| && edges[e].valid ==> |edges[e].prices| == warmingCount)
    }
  }

  /** What pruning reads of an edge, from its state. A state kept valid makes the edge fit the
      configuration, so that reading a price by warming amount is always in range. */
  function Snapshot(state: EdgeState, source: nat, target: nat, impact: Option<real>, supportsExactOut: bool,
                    ghost warmingCount: nat): (r: Edge)
    requires state.Valid(warmingCount)
    reads state
    ensures r.valid <==> state.validFlag && state.cooldownUntil == None
    ensures r.valid ==> |r.prices| == warmingCount
    ensures |r.prices| == |state.cachedPrices|
    ensures forall i :: 0 <= i < |r.prices| ==> r.prices[i] == state.cachedPrices[i].1
    ensures r.source == source && r.target == target && r.impact == impact && r.supportsExactOut == supportsExactOut
  {
    Edge(source, target, state.IsValid(),
         seq(|state.cachedPrices|, i requires 0 <= i < |state.cachedPrices| reads state => state.cachedPrices[i].1),
         impact, supportsExactOut)
  }

  type Pair = (nat, nat)

  function PairOf(c: Config, e: nat): Pair
    requires e < |c.edges|
  {
    (c.edges[e].source, c.edges[e].target)
  }

  function MaxCount(c: Config, p: Pair): nat
  {
    if c.hotMints == {} || (p.0 in c.hotMints && p.1 in c.hotMints) then c.maxCountForHot else c.maxCountForCold
  }

  /** The edge takes part for warming amount `i`. */
  ghost predicate Eligible(c: Config, i: nat, e: nat)
  {
    && e < |c.edges| && i < |c.edges[e].prices|
    && !(c.mode.ExactOut? && !c.edges[e].supportsExactOut)
    && c.edges[e].valid && Above(c.edges[e].prices[i], 0.000000001)
  }

  /** Strictly smaller price. */
  predicate Below(a: Price, b: Price)
  {
    match (a, b)
    case (Finite(x), Finite(y)) => x < y
    case (Finite(_), Infinite) => true
    case _ => false
  }

  /** What the bound and the comparison promise: pairs of hot mints, and all pairs where no mint is called
      hot, may keep more; and any number is lower than a larger one and than infinity. */
  ghost function Most(c: Config, p: Pair): nat
  {
    if c.hotMints == {} || {p.0, p.1} <= c.hotMints then c.maxCountForHot else c.maxCountForCold
  }

  ghost predicate Lower(a: Price, b: Price)
  {
    a.Finite? && (b.Infinite? || (b.Finite? && b.value > a.value))
  }

  lemma BelowIsLower()
    ensures forall a, b :: Below(a, b) <==> Lower(a, b)
  {
  }

  lemma MaxCountIsMost(c: Config, p: Pair)
    ensures MaxCount(c, p) == Most(c, p)
  {
  }

  type Ranked = seq<(nat, Price)>

  ghost predicate Descending(v: Ranked)
  {
    forall i, j :: 0 <= i < j < |v| ==> !Lower(v[i].1, v[j].1)
  }

  ghost predicate NoRepeat(v: Ranked)
  {
    forall i, j :: 0 <= i < j < |v| ==> v[i].0 != v[j].0
  }

  /** Rearranged, largest price first; nothing is promised about equal prices. */
  ghost predicate IsSorting(v: Ranked, r: Ranked)
  {
    |r| == |v| && Descending(r) && (NoRepeat(v) ==> NoRepeat(r)) && forall x :: x in r <==> x in v
  }

  method SortDescending(v: Ranked) returns (r: Ranked)
    requires NoRepeat(v)
    requires forall i :: 0 <= i < |v| ==> !v[i].1.NotANumber?
    ensures IsSorting(v, r)
  {
    r := [];
    var k := 0;
    while k < |v|
      invariant 0 <= k <= |v| && |r| == k && Descending(r) && NoRepeat(r)
      invariant forall x :: x in r <==> x in v[..k]
    {
      r := InsertPrice(r, v[k], v[..k]);
      assert v[..k + 1] == v[..k] + [v[k]];
      k := k + 1;
    }
    assert v[..k] == v;
  }

  method InsertPrice(s: Ranked, x: (nat, Price), ghost from: Ranked) returns (r: Ranked)
    requires Descending(s) && NoRepeat(s) && !x.1.NotANumber?
    requires forall y :: y in s <==> y in from
    requires forall y :: y in from ==> y.0 != x.0 && !y.1.NotANumber?
    ensures |r| == |s| + 1 && Descending(r) && NoRepeat(r)
    ensures forall y :: y in r <==> y in from || y == x
  {
    hide Descending, NoRepeat, Lower, Below;
    var k := 0;
    BelowIsLower();
    while k < |s| && !Below(s[k].1, x.1)
      invariant 0 <= k <= |s|
      invariant forall i :: 0 <= i < k ==> !Lower(s[i].1, x.1)
    {
      k := k + 1;
    }
    r := s[..k] + [x] + s[k..];
    assert s == s[..k] + s[k..];
    forall i | 0 <= i < |s| ensures s[i].0 != x.0 && !s[i].1.NotANumber? {
      assert s[i] in from;
    }
    InsertOrder(s, x, k);
  }

  lemma InsertOrder(s: Ranked, x: (nat, Price), k: nat)
    requires Descending(s) && NoRepeat(s) && k <= |s|
    requires forall i :: 0 <= i < |s| ==> s[i].0 != x.0 && !s[i].1.NotANumber?
    requires forall i :: 0 <= i < k ==> !Lower(s[i].1, x.1)
    requires k < |s| ==> Lower(s[k].1, x.1)
    ensures Descending(s[..k] + [x] + s[k..]) && NoRepeat(s[..k] + [x] + s[k..])
  {
    forall i | k <= i < |s| ensures !Lower(x.1, s[i].1) {
      assert k < i ==> !Lower(s[k].1, s[i].1);
    }
    hide Lower;
  }

  // ---- The best edges of each pair, for one warming amount ----

  function PriceAt(c: Config, i: nat, e: nat): Price
    requires Eligible(c, i, e)
  {
    c.edges[e].prices[i]
  }

  /** `e` is one of the first `m` edges that compete for pair `p`. */
  ghost predicate Competes(c: Config, i: nat, m: nat, p: Pair, e: nat)
  {
    e < m && Eligible(c, i, e) && PairOf(c, e) == p
  }

  /** `v` holds the best competitors of the first `m` edges: all of them if they fit, otherwise as
      many as fit, with no competitor left out that is better than one taken. */
  ghost predicate IsTop(c: Config, i: nat, m: nat, p: Pair, v: Ranked)
  {
    && NoRepeat(v) && Descending(v) && 1 <= |v| <= Most(c, p)
    && (forall x :: x in v ==> Competes(c, i, m, p, x.0) && x.1 == PriceAt(c, i, x.0))
    && (forall e: nat :: Competes(c, i, m, p, e) && (e, PriceAt(c, i, e)) !in v ==>
          |v| == Most(c, p) && forall x :: x in v ==> !Lower(x.1, PriceAt(c, i, e)))
  }

  /** Replacing the worst kept edge by a better one. */
  lemma ReplaceKeepsTop(c: Config, i: nat, m: nat, p: Pair, v: Ranked, r: Ranked)
    requires Competes(c, i, m + 1, p, m) && IsTop(c, i, m, p, v) && |v| == Most(c, p)
    requires Lower(v[|v| - 1].1, PriceAt(c, i, m))
    requires IsSorting(v[|v| - 1 := (m, PriceAt(c, i, m))], r)
    ensures IsTop(c, i, m + 1, p, r)
  {
    hide Eligible, Most, PairOf;
    var w := v[|v| - 1 := (m, PriceAt(c, i, m))];
    var worst := v[|v| - 1];
    assert w[|w| - 1] == (m, PriceAt(c, i, m));
    forall k | 0 <= k < |v| - 1 ensures v[k].0 < m && w[k] == v[k] {
      assert v[k] in v;
    }
    forall x | x in r ensures x == (m, PriceAt(c, i, m)) || (x in v && !Lower(x.1, worst.1)) {
      assert x in w;
      var k :| 0 <= k < |w| && w[k] == x;
    }
    forall y | y in v && y != worst ensures y in r {
      var k :| 0 <= k < |v| && v[k] == y;
      assert w[k] in w;
    }
    assert (m, PriceAt(c, i, m)) in w;
    var n := m + 1;
    forall e: nat | Competes(c, i, n, p, e) && (e, PriceAt(c, i, e)) !in r
      ensures forall x :: x in r ==> !Lower(x.1, PriceAt(c, i, e))
    {
      assert Competes(c, i, m, p, e);
      assert worst in v;
      assert !Lower(worst.1, PriceAt(c, i, e));
    }
  }

  /** An edge no better than the worst kept one is passed over. */
  lemma SkipKeepsTop(c: Config, i: nat, m: nat, p: Pair, v: Ranked)
    requires Competes(c, i, m + 1, p, m) && IsTop(c, i, m, p, v) && |v| == Most(c, p)
    requires !Lower(v[|v| - 1].1, PriceAt(c, i, m))
    ensures IsTop(c, i, m + 1, p, v)
  {
    hide Most, PairOf;
    forall x | x in v ensures !Lower(x.1, PriceAt(c, i, m)) {
      var k :| 0 <= k < |v| && v[k] == x;
      assert k < |v| - 1 ==> !Lower(v[k].1, v[|v| - 1].1);
      assert v[|v| - 1] in v;
    }
  }

  lemma PushKeepsTop(c: Config, i: nat, m: nat, p: Pair, v: Ranked, r: Ranked)
    requires Competes(c, i, m + 1, p, m) && IsTop(c, i, m, p, v) && |v| < Most(c, p)
    requires IsSorting(v + [(m, PriceAt(c, i, m))], r)
    ensures IsTop(c, i, m + 1, p, r)
  {
    hide Eligible, Most, PairOf;
    forall k | 0 <= k < |v| ensures v[k].0 < m {
      assert v[k] in v;
    }
  }

  lemma FirstIsTop(c: Config, i: nat, m: nat, p: Pair)
    requires Competes(c, i, m + 1, p, m) && Most(c, p) >= 1
    requires forall e: nat :: !Competes(c, i, m, p, e)
    ensures IsTop(c, i, m + 1, p, [(m, PriceAt(c, i, m))])
  {
    hide Eligible, Most, PairOf;
    var n := m + 1;
    forall e: nat | Competes(c, i, n, p, e) ensures e == m {
      assert e < m ==> Competes(c, i, m, p, e);
    }
  }

  lemma OtherPairTop(c: Config, i: nat, m: nat, p: Pair, v: Ranked)
    requires IsTop(c, i, m, p, v) && !Competes(c, i, m + 1, p, m)
    ensures IsTop(c, i, m + 1, p, v)
  {
    hide Eligible, Most, PairOf;
  }

  /** Take edge `m` into the list of its pair. */
  method TakeIn(c: Config, i: nat, m: nat, p: Pair, v: Ranked) returns (r: Ranked)
    requires Competes(c, i, m + 1, p, m) && IsTop(c, i, m, p, v)
    ensures IsTop(c, i, m + 1, p, r)
  {
    hide Most, MaxCount, PairOf, IsSorting, Lower, Below;
    BelowIsLower();
    MaxCountIsMost(c, p);
    var price, maxCount := PriceAt(c, i, m), MaxCount(c, p);
    NumbersOnly(c, i, m, p, v);
    if |v| == maxCount {
      if Below(v[maxCount - 1].1, price) {
        r := SortDescending(v[maxCount - 1 := (m, price)]);
        ReplaceKeepsTop(c, i, m, p, v, r);
      } else {
        SkipKeepsTop(c, i, m, p, v);
        r := v;
      }
    } else {
      r := SortDescending(v + [(m, price)]);
      PushKeepsTop(c, i, m, p, v, r);
      TopFits(c, i, m + 1, p, r);
      r := Take(r, maxCount);
    }
  }

  lemma TopFits(c: Config, i: nat, m: nat, p: Pair, v: Ranked)
    requires IsTop(c, i, m, p, v)
    ensures |v| <= Most(c, p)
  {
  }

  lemma NumbersOnly(c: Config, i: nat, m: nat, p: Pair, v: Ranked)
    requires IsTop(c, i, m, p, v)
    ensures forall k :: 0 <= k < |v| ==> v[k].0 < m && !v[k].1.NotANumber?
  {
    forall k | 0 <= k < |v| ensures v[k].0 < m && !v[k].1.NotANumber? {
      assert v[k] in v;
    }
  }

  /** The lists of all pairs after the first `m` edges. */
  ghost predicate Tops(c: Config, i: nat, m: nat, best: map<Pair, Ranked>)
  {
    && (forall p :: p in best ==> IsTop(c, i, m, p, best[p]))
    && (forall p, e: nat :: Competes(c, i, m, p, e) ==> p in best)
  }

  method BestForAmount(c: Config, i: nat) returns (best: map<Pair, Ranked>)
    requires c.WellFormed() && i < c.warmingCount
    ensures Tops(c, i, |c.edges|, best)
  {
    hide IsTop, Most;
    best := map[];
    var m := 0;
    while m < |c.edges|
      invariant 0 <= m <= |c.edges| && Tops(c, i, m, best)
    {
      var edge := c.edges[m];
      ghost var before := best;
      var p := PairOf(c, m);
      // The source tests `len < i` only; for a valid edge the index is in range all the same.
      if (c.mode.ExactOut? && !edge.supportsExactOut) || !edge.valid || |edge.prices| < i
         || !Above(edge.prices[i], 0.000000001) {
        NotEligible(c, i, m, best);
      } else {
        var v: Ranked;
        if p in best {
          v := TakeIn(c, i, m, p, best[p]);
        } else {
          MaxCountPositive(c, p);
          FirstIsTop(c, i, m, p);
          v := [(m, PriceAt(c, i, m))];
        }
        TopsStep(c, i, m, best, p, v);
        best := best[p := v];
      }
      m := m + 1;
    }
  }

  lemma MaxCountPositive(c: Config, p: Pair)
    requires c.WellFormed()
    ensures Most(c, p) >= 1
  {
  }

  lemma NotEligible(c: Config, i: nat, m: nat, best: map<Pair, Ranked>)
    requires Tops(c, i, m, best) && !Eligible(c, i, m)
    ensures Tops(c, i, m + 1, best)
  {
    hide IsTop, Eligible;
    forall p | p in best ensures IsTop(c, i, m + 1, p, best[p]) {
      OtherPairTop(c, i, m, p, best[p]);
    }
    var n := m + 1;
    forall p, e: nat | Competes(c, i, n, p, e) ensures p in best {
      assert Competes(c, i, m, p, e);
    }
  }

  lemma TopsStep(c: Config, i: nat, m: nat, best: map<Pair, Ranked>, p: Pair, v: Ranked)
    requires Tops(c, i, m, best) && Competes(c, i, m + 1, p, m) && IsTop(c, i, m + 1, p, v)
    ensures Tops(c, i, m + 1, best[p := v])
  {
    hide IsTop, Eligible;
    forall q | q in best && q != p ensures IsTop(c, i, m + 1, q, best[q]) {
      OtherPairTop(c, i, m, q, best[q]);
    }
    var n := m + 1;
    forall q, e: nat | Competes(c, i, n, q, e) ensures q in best[p := v] {
      assert e < m ==> Competes(c, i, m, q, e);
    }
  }

  // ---- All warming amounts ----

  /** The edge is in the list of its pair for some warming amount below `n`. */
  ghost predicate SelectedBy(tops: seq<map<Pair, Ranked>>, e: nat)
  {
    exists i, p :: 0 <= i < |tops| && InTop(tops[i], p, e)
  }

  ghost predicate InTop(best: map<Pair, Ranked>, p: Pair, e: nat)
  {
    p in best && exists k :: 0 <= k < |best[p]| && best[p][k].0 == e
  }

  function IndicesOf(best: map<Pair, Ranked>): (r: set<nat>)
    ensures forall e: nat :: e in r <==> exists p :: InTop(best, p, e)
  {
    var r := set p, k | p in best.Keys && 0 <= k < |best[p]| :: best[p][k].0;
    assert forall e: nat, p :: InTop(best, p, e) ==> e in r;
    assert forall e: nat :: e in r ==> exists p :: InTop(best, p, e) by {
      forall e: nat | e in r ensures exists p :: InTop(best, p, e) {
        var p, k :| p in best.Keys && 0 <= k < |best[p]| && best[p][k].0 == e;
        assert InTop(best, p, e);
      }
    }
    r
  }

  /** The selected edges: for every warming amount, the lists of all pairs together. */
  method SelectEdges(c: Config) returns (result: set<nat>, ghost tops: seq<map<Pair, Ranked>>)
    requires c.WellFormed()
    ensures |tops| == c.warmingCount && forall i :: 0 <= i < |tops| ==> Tops(c, i, |c.edges|, tops[i])
    ensures forall e: nat :: e in result <==> SelectedBy(tops, e)
    ensures forall e: nat :: e in result ==> e < |c.edges|
  {
    hide Tops, InTop;
    result := {};
    tops := [];
    var i := 0;
    while i < c.warmingCount
      invariant 0 <= i <= c.warmingCount && |tops| == i
      invariant forall k :: 0 <= k < i ==> Tops(c, k, |c.edges|, tops[k])
      invariant forall e: nat :: e in result <==> SelectedBy(tops, e)
      invariant forall e: nat :: e in result ==> e < |c.edges|
    {
      var best := BestForAmount(c, i);
      TopsInRange(c, i, best);
      SelectedMore(tops, best);
      result := result + IndicesOf(best);
      tops := tops + [best];
      i := i + 1;
    }
  }

  lemma SelectedMore(tops: seq<map<Pair, Ranked>>, best: map<Pair, Ranked>)
    ensures forall e: nat :: SelectedBy(tops + [best], e) <==> SelectedBy(tops, e) || e in IndicesOf(best)
  {
    hide InTop;
    var more := tops + [best];
    forall e: nat ensures SelectedBy(more, e) <==> SelectedBy(tops, e) || e in IndicesOf(best) {
      if SelectedBy(tops, e) {
        var i, p :| 0 <= i < |tops| && InTop(tops[i], p, e);
        assert more[i] == tops[i];
      }
      if e in IndicesOf(best) {
        var p :| InTop(best, p, e);
        assert more[|tops|] == best;
      }
    }
  }

  lemma TopsInRange(c: Config, i: nat, best: map<Pair, Ranked>)
    requires Tops(c, i, |c.edges|, best)
    ensures forall e: nat :: e in IndicesOf(best) ==> e < |c.edges|
  {
    hide Most;
    forall e: nat | e in IndicesOf(best) ensures e < |c.edges| {
      var p :| InTop(best, p, e);
      var k :| 0 <= k < |best[p]| && best[p][k].0 == e;
      assert best[p][k] in best[p];
    }
  }

  // ---- Building the graph ----

  const IMPACT_LIMIT: real := 0.25
  const UNKNOWN_IMPACT: real := 9999.9999

  function Impact(c: Config, e: nat): real
    requires e < |c.edges|
  {
    if c.edges[e].impact.Some? then c.edges[e].impact.value else UNKNOWN_IMPACT
  }

  /** A mint and whether the edge takes it in (true) or gives it out (false). */
  type Side = (nat, bool)

  function InSide(c: Config, e: nat): Side
    requires e < |c.edges|
  {
    (c.edges[e].source, true)
  }

  function OutSide(c: Config, e: nat): Side
    requires e < |c.edges|
  {
    (c.edges[e].target, false)
  }

  predicate Touches(c: Config, e: nat, side: Side)
  {
    e < |c.edges| && (InSide(c, e) == side || OutSide(c, e) == side)
  }

  ghost predicate Touched(c: Config, edges: set<nat>, side: Side)
  {
    exists e: nat :: e in edges && Touches(c, e, side)
  }

  /** Node whose list an edge goes to, and the record that goes there. */
  function ListNode(c: Config, e: nat): nat
    requires e < |c.edges|
  {
    if c.mode.ExactIn? then c.edges[e].source else c.edges[e].target
  }

  function Record(c: Config, e: nat): EdgeWithNodes
    requires e < |c.edges|
  {
    if c.mode.ExactIn? then EdgeWithNodes(c.edges[e].source, c.edges[e].target, e)
    else EdgeWithNodes(c.edges[e].target, c.edges[e].source, e)
  }

  /** The graph holds exactly the edges of `placed`, each once, in its node's list. */
  ghost predicate GraphOf(c: Config, graph: seq<seq<EdgeWithNodes>>, placed: set<nat>)
  {
    && |graph| == c.mintCount
    && (forall e :: e in placed ==> e < |c.edges|)
    && (forall n :: 0 <= n < |graph| ==> ListOf(c, n, graph[n], placed))
  }

  ghost predicate ListOf(c: Config, n: nat, list: seq<EdgeWithNodes>, placed: set<nat>)
  {
    && (forall i, j :: 0 <= i < j < |list| ==> list[i].edge != list[j].edge)
    && (forall i :: 0 <= i < |list| ==>
          list[i].edge in placed && list[i].edge < |c.edges| && ListNode(c, list[i].edge) == n
            && list[i] == Record(c, list[i].edge))
    && (forall e :: e in placed && e < |c.edges| && ListNode(c, e) == n ==> Record(c, e) in list)
  }

  lemma PlaceOne(c: Config, graph: seq<seq<EdgeWithNodes>>, placed: set<nat>, e: nat)
    requires c.WellFormed() && GraphOf(c, graph, placed) && e < |c.edges| && e !in placed
    ensures ListNode(c, e) < |graph|
    ensures GraphOf(c, graph[ListNode(c, e) := graph[ListNode(c, e)] + [Record(c, e)]], placed + {e})
  {
    var n := ListNode(c, e);
    var list := graph[n] + [Record(c, e)];
    assert ListOf(c, n, graph[n], placed);
    assert ListOf(c, n, list, placed + {e}) by {
      assert list[|list| - 1] == Record(c, e);
      forall f | f in placed + {e} && f < |c.edges| && ListNode(c, f) == n ensures Record(c, f) in list {
        if f != e {
          assert Record(c, f) in graph[n];
        }
      }
    }
    forall m | 0 <= m < |graph| && m != n ensures ListOf(c, m, graph[m], placed + {e}) {
      assert ListOf(c, m, graph[m], placed);
    }
  }

  /** For every side touched by the edges seen, `lowest` holds one of least impact among them. */
  ghost predicate AllLowest(c: Config, lowest: map<Side, (real, nat)>, seen: set<nat>)
  {
    forall s :: s in lowest ==> IsLowest(c, s, lowest[s], seen)
  }

  ghost predicate AllKnown(c: Config, lowest: map<Side, (real, nat)>, seen: set<nat>)
  {
    forall e: nat, s :: e in seen && Touches(c, e, s) ==> s in lowest
  }

  ghost predicate IsLowest(c: Config, s: Side, best: (real, nat), seen: set<nat>)
  {
    && best.1 in seen && best.1 < |c.edges| && Touches(c, best.1, s) && best.0 == Impact(c, best.1)
    && forall e: nat :: e in seen && e < |c.edges| && Touches(c, e, s) ==> best.0 <= Impact(c, e)
  }

  function UpdateLowestPriceImpact(lowest: map<Side, (real, nat)>, e: nat, side: Side, impact: real)
    : map<Side, (real, nat)>
  {
    if side in lowest && lowest[side].0 <= impact then lowest else lowest[side := (impact, e)]
  }

  function UpdateBothSides(c: Config, lowest: map<Side, (real, nat)>, e: nat): map<Side, (real, nat)>
    requires e < |c.edges|
  {
    UpdateLowestPriceImpact(UpdateLowestPriceImpact(lowest, e, InSide(c, e), Impact(c, e)), e, OutSide(c, e),
                            Impact(c, e))
  }

  lemma LowestStep(c: Config, lowest: map<Side, (real, nat)>, seen: set<nat>, e: nat)
    requires AllLowest(c, lowest, seen) && AllKnown(c, lowest, seen) && e < |c.edges| && e !in seen
    ensures AllLowest(c, UpdateBothSides(c, lowest, e), seen + {e})
    ensures AllKnown(c, UpdateBothSides(c, lowest, e), seen + {e})
  {
    hide Impact, AllLowest, AllKnown, IsLowest, UpdateBothSides, Touches;
    var r := UpdateBothSides(c, lowest, e);
    UpdatedEntries(c, lowest, e);
    assert AllLowest(c, r, seen + {e}) by {
      forall s | s in r ensures IsLowest(c, s, r[s], seen + {e}) {
        LowestEntry(c, lowest, seen, e, s);
      }
      AllLowestIntro(c, r, seen + {e});
    }
    KnownEntries(c, lowest, seen, e);
  }

  lemma AllLowestIntro(c: Config, lowest: map<Side, (real, nat)>, seen: set<nat>)
    requires forall s :: s in lowest ==> IsLowest(c, s, lowest[s], seen)
    ensures AllLowest(c, lowest, seen)
  {
  }

  /** What the two updates do, side by side. */
  lemma UpdatedEntries(c: Config, lowest: map<Side, (real, nat)>, e: nat)
    requires e < |c.edges|
    ensures var r := UpdateBothSides(c, lowest, e);
            forall s :: (s in r <==> s in lowest || Touches(c, e, s))
                        && (s in r ==>
                              r[s] == if Touches(c, e, s) && !(s in lowest && lowest[s].0 <= Impact(c, e))
                                      then (Impact(c, e), e) else lowest[s])
  {
    hide Impact;
  }

  lemma LowestEntry(c: Config, lowest: map<Side, (real, nat)>, seen: set<nat>, e: nat, s: Side)
    requires AllLowest(c, lowest, seen) && AllKnown(c, lowest, seen) && e < |c.edges|
               && s in UpdateBothSides(c, lowest, e)
    ensures IsLowest(c, s, UpdateBothSides(c, lowest, e)[s], seen + {e})
  {
    hide Impact, Touches, UpdateBothSides;
    UpdatedEntries(c, lowest, e);
    if s in lowest {
      assert IsLowest(c, s, lowest[s], seen);
    }
  }

  lemma KnownEntries(c: Config, lowest: map<Side, (real, nat)>, seen: set<nat>, e: nat)
    requires AllKnown(c, lowest, seen) && e < |c.edges|
    ensures AllKnown(c, UpdateBothSides(c, lowest, e), seen + {e})
  {
    hide Impact, Touches, UpdateBothSides;
    UpdatedEntries(c, lowest, e);
  }

  /** First pass: place the edges of small impact, and remember the least impact of every side. */
  method PlaceGoodEdges(c: Config, selected: set<nat>)
    returns (graph: seq<seq<EdgeWithNodes>>, has: set<Side>, lowest: map<Side, (real, nat)>, count: nat,
             ghost placed: set<nat>)
    requires c.WellFormed() && forall e :: e in selected ==> e < |c.edges|
    ensures GraphOf(c, graph, placed) && AllLowest(c, lowest, selected) && AllKnown(c, lowest, selected)
              && count == |placed|
    ensures forall e :: e in placed <==> e in selected && Impact(c, e) <= IMPACT_LIMIT
    ensures forall s :: s in has <==> Touched(c, placed, s)
  {
    hide GraphOf, AllLowest, AllKnown, Config.WellFormed, Impact, ListNode, Record, UpdateLowestPriceImpact, Touched;
    graph := seq(c.mintCount, _ => []);
    has, lowest, count, placed := {}, map[], 0, {};
    EmptyGraph(c);
    var todo := selected;
    ghost var seen: set<nat> := {};
    while todo != {}
      invariant todo <= selected && seen == selected - todo
      invariant GraphOf(c, graph, placed) && AllLowest(c, lowest, seen) && AllKnown(c, lowest, seen)
                  && count == |placed|
      invariant forall e :: e in placed <==> e in seen && Impact(c, e) <= IMPACT_LIMIT
      invariant forall s :: s in has <==> Touched(c, placed, s)
      decreases |todo|
    {
      var e :| e in todo;
      todo := todo - {e};
      LowestStep(c, lowest, seen, e);
      lowest := UpdateLowestPriceImpact(lowest, e, InSide(c, e), Impact(c, e));
      lowest := UpdateLowestPriceImpact(lowest, e, OutSide(c, e), Impact(c, e));
      seen := seen + {e};
      if !(Impact(c, e) > IMPACT_LIMIT) {
        PlaceOne(c, graph, placed, e);
        TouchedMore(c, placed, e);
        graph := graph[ListNode(c, e) := graph[ListNode(c, e)] + [Record(c, e)]];
        has := has + {InSide(c, e), OutSide(c, e)};
        placed := placed + {e};
        count := count + 1;
      }
    }
    assert seen == selected;
  }

  lemma EmptyGraph(c: Config)
    ensures GraphOf(c, seq(c.mintCount, _ => []), {}) && AllLowest(c, map[], {}) && AllKnown(c, map[], {})
    ensures forall s :: !Touched(c, {}, s)
  {
  }

  lemma TouchedMore(c: Config, placed: set<nat>, e: nat)
    requires e < |c.edges|
    ensures forall s :: Touched(c, placed + {e}, s) <==> Touched(c, placed, s) || s in {InSide(c, e), OutSide(c, e)}
  {
    forall s ensures Touched(c, placed + {e}, s) <==> Touched(c, placed, s) || s in {InSide(c, e), OutSide(c, e)} {
      if Touched(c, placed, s) {
        var f: nat :| f in placed && Touches(c, f, s);
        assert f in placed + {e};
      }
      if s in {InSide(c, e), OutSide(c, e)} {
        assert e in placed + {e};
      }
    }
  }

  /** Why an edge of large impact is in the graph: no edge selected for one of its sides has a
      smaller impact. */
  ghost predicate Rescued(c: Config, selected: set<nat>, e: nat)
  {
    exists s: Side :: LowestFor(c, s, e, selected)
  }

  ghost predicate LowestFor(c: Config, s: Side, e: nat, selected: set<nat>)
  {
    e < |c.edges| && IsLowest(c, s, (Impact(c, e), e), selected)
  }

  /** Second pass: a side left without an edge gets its edge of least impact back. */
  method RescueSides(c: Config, selected: set<nat>, graph0: seq<seq<EdgeWithNodes>>, has0: set<Side>,
                     lowest: map<Side, (real, nat)>, count0: nat, ghost placed0: set<nat>)
    returns (graph: seq<seq<EdgeWithNodes>>, count: nat, ghost placed: set<nat>)
    requires c.WellFormed() && (forall e :: e in selected ==> e < |c.edges|)
    requires GraphOf(c, graph0, placed0) && AllLowest(c, lowest, selected) && AllKnown(c, lowest, selected)
               && count0 == |placed0| && placed0 <= selected
    requires forall s :: s in has0 <==> Touched(c, placed0, s)
    ensures GraphOf(c, graph, placed) && count == |placed| && placed0 <= placed <= selected
    ensures forall s :: Touched(c, selected, s) ==> Touched(c, placed, s)
    ensures forall e :: e in placed - placed0 ==> Rescued(c, selected, e)
  {
    hide GraphOf, AllLowest, AllKnown, Config.WellFormed, Impact, ListNode, Record, Touched, Rescued, InSide, OutSide;
    graph, count, placed := graph0, count0, placed0;
    var has := has0;
    var todo := lowest.Keys;
    while todo != {}
      invariant todo <= lowest.Keys
      invariant GraphOf(c, graph, placed) && count == |placed| && placed0 <= placed <= selected
      invariant forall s :: s in has <==> Touched(c, placed, s)
      invariant forall s :: s in lowest && s !in todo ==> s in has
      invariant forall e :: e in placed - placed0 ==> Rescued(c, selected, e)
      decreases |todo|
    {
      var side :| side in todo;
      todo := todo - {side};
      if side !in has {
        var e := lowest[side].1;
        RescueIsNew(c, lowest, selected, placed, side);
        PlaceOne(c, graph, placed, e);
        TouchedMore(c, placed, e);
        graph := graph[ListNode(c, e) := graph[ListNode(c, e)] + [Record(c, e)]];
        has := has + {InSide(c, e), OutSide(c, e)};
        placed := placed + {e};
        count := count + 1;
      }
    }
    forall s | Touched(c, selected, s) ensures Touched(c, placed, s) {
      SideKnown(c, lowest, selected, s);
    }
  }

  /** An edge brought back cannot be in the graph already: its own side would not be missing. */
  lemma RescueIsNew(c: Config, lowest: map<Side, (real, nat)>, selected: set<nat>, placed: set<nat>, side: Side)
    requires AllLowest(c, lowest, selected) && AllKnown(c, lowest, selected) && side in lowest
               && !Touched(c, placed, side)
    ensures lowest[side].1 in selected && lowest[side].1 < |c.edges| && lowest[side].1 !in placed
    ensures side in {InSide(c, lowest[side].1), OutSide(c, lowest[side].1)} && Rescued(c, selected, lowest[side].1)
  {
    hide Impact, AllKnown;
    assert IsLowest(c, side, lowest[side], selected);
    assert LowestFor(c, side, lowest[side].1, selected);
  }

  lemma SideKnown(c: Config, lowest: map<Side, (real, nat)>, selected: set<nat>, s: Side)
    requires AllLowest(c, lowest, selected) && AllKnown(c, lowest, selected) && Touched(c, selected, s)
    ensures s in lowest
  {
    hide AllLowest, Touches;
  }

  /** What pruning comes to, with the lists per warming amount, the edges selected from them, and
      the edges placed in the graph. */
  ghost predicate Pruned(c: Config, graph: seq<seq<EdgeWithNodes>>, tops: seq<map<Pair, Ranked>>, selected: set<nat>,
                         placed: set<nat>)
  {
    // For every warming amount and pair, exactly the best eligible edges are selected.
    && |tops| == c.warmingCount && (forall i :: 0 <= i < |tops| ==> Tops(c, i, |c.edges|, tops[i]))
    && (forall e: nat :: e in selected <==> SelectedBy(tops, e))
    // The graph holds selected edges, none twice.
    && GraphOf(c, graph, placed) && placed <= selected
    // All those of small impact are there; the others only to keep a side connected.
    && (forall e: nat :: e in selected ==> e < |c.edges| && (Impact(c, e) <= IMPACT_LIMIT ==> e in placed))
    && (forall e: nat :: e in placed && e < |c.edges| && Impact(c, e) > IMPACT_LIMIT ==> Rescued(c, selected, e))
    // Every mint and direction of a selected edge keeps at least one edge.
    && (forall s :: Touched(c, selected, s) ==> Touched(c, placed, s))
  }

  // ---- The same, said of the edges themselves ----

  /** The edge can be chosen for warming amount `i`: usable, quotable in the mode, and not priced as
      dust. */
  ghost predicate Tradable(c: Config, i: nat, e: nat)
  {
    && e < |c.edges| && i < |c.edges[e].prices| && c.edges[e].valid
    && (c.mode == ExactOut ==> c.edges[e].supportsExactOut)
    && match c.edges[e].prices[i]
       case Finite(price) => price > 0.000000001
       case Infinite => true
       case NotANumber => false
  }

  /** Both edges trade `source` for `target`. */
  ghost predicate Trades(c: Config, e: nat, source: nat, target: nat)
  {
    e < |c.edges| && c.edges[e].source == source && c.edges[e].target == target
  }

  ghost predicate SamePair(c: Config, e: nat, f: nat)
  {
    && e < |c.edges| && f < |c.edges|
    && c.edges[e].source == c.edges[f].source && c.edges[e].target == c.edges[f].target
  }

  /** Edge `f` has the larger price; an infinite one is larger than any number. */
  ghost predicate Dearer(c: Config, i: nat, f: nat, e: nat)
  {
    && e < |c.edges| && f < |c.edges| && i < |c.edges[e].prices| && i < |c.edges[f].prices|
    && match (c.edges[f].prices[i], c.edges[e].prices[i])
       case (Finite(x), Finite(y)) => x > y
       case (Infinite, Finite(_)) => true
       case _ => false
  }

  /** For warming amount `i` and each pair of mints: no tradable edge left out has a larger price than
      one chosen, and none is left out unless as many as allowed are chosen: one number for pairs of
      hot mints, or when no mint is called hot, and another for all other pairs. */
  ghost predicate BestChosen(c: Config, i: nat, chosen: set<nat>)
  {
    && (forall e: nat :: e in chosen ==> Tradable(c, i, e))
    && (forall e: nat, f: nat :: e in chosen && f !in chosen && Tradable(c, i, f) && SamePair(c, e, f) ==>
          !Dearer(c, i, f, e))
    && (forall source: nat, target: nat :: FillsPair(c, i, chosen, source, target))
  }

  /** No more edges than allowed are chosen for the pair, and if any tradable one is left out, as many. */
  ghost predicate FillsPair(c: Config, i: nat, chosen: set<nat>, source: nat, target: nat)
  {
    var hot := c.hotMints == {} || {source, target} <= c.hotMints;
    var most := if hot then c.maxCountForHot else c.maxCountForCold;
    var taken := set e: nat | e in chosen && Trades(c, e, source, target);
    && |taken| <= most
    && (forall f: nat :: Tradable(c, i, f) && Trades(c, f, source, target) && f !in chosen ==> |taken| == most)
  }

  lemma EligibleIsTradable(c: Config, i: nat, e: nat)
    ensures Eligible(c, i, e) <==> Tradable(c, i, e)
  {
  }

  ghost function FirstIndices(v: Ranked, n: nat): set<nat>
    requires n <= |v|
  {
    set k | 0 <= k < n :: v[k].0
  }

  lemma {:induction false} DistinctIndices(v: Ranked, n: nat)
    requires NoRepeat(v) && n <= |v|
    ensures |FirstIndices(v, n)| == n
  {
    if n > 0 {
      DistinctIndices(v, n - 1);
      FirstIndicesStep(v, n);
    }
  }

  lemma FirstIndicesStep(v: Ranked, n: nat)
    requires NoRepeat(v) && 0 < n <= |v|
    ensures FirstIndices(v, n) == FirstIndices(v, n - 1) + {v[n - 1].0}
    ensures v[n - 1].0 !in FirstIndices(v, n - 1)
  {
  }

  /** An edge is in the list of its own pair, or in none. */
  lemma ListedUnderPair(c: Config, i: nat, best: map<Pair, Ranked>, p: Pair, e: nat)
    requires Tops(c, i, |c.edges|, best) && InTop(best, p, e)
    ensures Eligible(c, i, e) && PairOf(c, e) == p && (e, PriceAt(c, i, e)) in best[p]
  {
    hide Eligible, Most;
    var k :| 0 <= k < |best[p]| && best[p][k].0 == e;
    assert best[p][k] in best[p];
  }

  lemma TopsChooseBest(c: Config, i: nat, best: map<Pair, Ranked>)
    requires c.WellFormed() && Tops(c, i, |c.edges|, best)
    ensures BestChosen(c, i, IndicesOf(best))
  {
    hide InTop, Tops, Eligible, Tradable, Most, Config.WellFormed, FillsPair;
    var chosen := IndicesOf(best);
    forall e: nat | e in chosen ensures Tradable(c, i, e) {
      var p :| InTop(best, p, e);
      ListedUnderPair(c, i, best, p, e);
      EligibleIsTradable(c, i, e);
    }
    forall e: nat, f: nat | e in chosen && f !in chosen && Tradable(c, i, f) && SamePair(c, e, f)
      ensures !Dearer(c, i, f, e)
    {
      var p :| InTop(best, p, e);
      ListedUnderPair(c, i, best, p, e);
      LeftOut(c, i, best, p, f);
      NotDearer(c, i, e, f);
    }
    forall source: nat, target: nat ensures FillsPair(c, i, chosen, source, target) {
      PairFilled(c, i, best, source, target);
    }
  }

  lemma PairFilled(c: Config, i: nat, best: map<Pair, Ranked>, source: nat, target: nat)
    requires c.WellFormed() && Tops(c, i, |c.edges|, best)
    ensures FillsPair(c, i, IndicesOf(best), source, target)
  {
    hide Tops, Tradable, Trades, IndicesOf, Config.WellFormed;
    TakenCount(c, i, best, (source, target));
  }

  lemma NotDearer(c: Config, i: nat, e: nat, f: nat)
    requires Eligible(c, i, e) && Eligible(c, i, f) && !Lower(PriceAt(c, i, e), PriceAt(c, i, f))
    ensures !Dearer(c, i, f, e)
  {
  }

  /** An edge left out of its pair's list is no better than those in it. */
  lemma LeftOut(c: Config, i: nat, best: map<Pair, Ranked>, p: Pair, f: nat)
    requires Tops(c, i, |c.edges|, best) && Tradable(c, i, f) && Trades(c, f, p.0, p.1) && f !in IndicesOf(best)
    ensures p in best && Eligible(c, i, f) && |best[p]| == Most(c, p)
    ensures forall x :: x in best[p] ==> !Lower(x.1, PriceAt(c, i, f))
  {
    hide Eligible, Tradable, Most, Lower;
    EligibleIsTradable(c, i, f);
    assert f < |c.edges| by { TradableInRange(c, i, f); }
    assert Competes(c, i, |c.edges|, p, f);
    assert IsTop(c, i, |c.edges|, p, best[p]);
    assert (f, PriceAt(c, i, f)) in best[p] ==> InTop(best, p, f);
  }

  lemma TradableInRange(c: Config, i: nat, e: nat)
    requires Tradable(c, i, e)
    ensures e < |c.edges|
  {
  }

  lemma TakenCount(c: Config, i: nat, best: map<Pair, Ranked>, p: Pair)
    requires c.WellFormed() && Tops(c, i, |c.edges|, best)
    ensures var taken := set e: nat | e in IndicesOf(best) && Trades(c, e, p.0, p.1);
            && |taken| <= Most(c, p)
            && (forall f: nat :: Tradable(c, i, f) && Trades(c, f, p.0, p.1) && f !in IndicesOf(best) ==>
                  |taken| == Most(c, p))
  {
    hide Tops, Eligible, Tradable, Most, Config.WellFormed;
    var taken := set e: nat | e in IndicesOf(best) && Trades(c, e, p.0, p.1);
    forall e: nat | e in taken ensures InTop(best, p, e) {
      var q :| InTop(best, q, e);
      ListedUnderPair(c, i, best, q, e);
    }
    if p in best {
      var v := best[p];
      TopSize(c, i, best, p);
      TopsInRange(c, i, best);
      DistinctIndices(v, |v|);
      forall e: nat | e in FirstIndices(v, |v|) ensures e in taken {
        var k :| 0 <= k < |v| && v[k].0 == e;
        assert InTop(best, p, e) && e in IndicesOf(best);
        ListedUnderPair(c, i, best, p, e);
      }
      assert taken == FirstIndices(v, |v|);
    } else {
      assert taken == {};
    }
    forall f: nat | Tradable(c, i, f) && Trades(c, f, p.0, p.1) && f !in IndicesOf(best)
      ensures |taken| == Most(c, p)
    {
      LeftOut(c, i, best, p, f);
    }
  }

  lemma TopSize(c: Config, i: nat, best: map<Pair, Ranked>, p: Pair)
    requires Tops(c, i, |c.edges|, best) && p in best
    ensures NoRepeat(best[p]) && |best[p]| <= Most(c, p)
  {
    hide Most;
    assert IsTop(c, i, |c.edges|, p, best[p]);
  }

  /** Price impact; where it cannot be computed, a large number. */
  ghost function ImpactOf(c: Config, e: nat): real
    requires e < |c.edges|
  {
    match c.edges[e].impact
    case Some(impact) => impact
    case None => 9999.9999
  }

  /** No edge of `selected` with the same input mint has a smaller impact than `e`, or none with the
      same output mint has. */
  ghost predicate LeastImpact(c: Config, selected: set<nat>, e: nat)
  {
    && e in selected && (forall f :: f in selected ==> f < |c.edges|)
    && ((forall f :: f in selected && c.edges[f].source == c.edges[e].source ==> ImpactOf(c, e) <= ImpactOf(c, f))
        || (forall f :: f in selected && c.edges[f].target == c.edges[e].target ==> ImpactOf(c, e) <= ImpactOf(c, f)))
  }

  /** Each list holds, once each, the placed edges that start at its mint, or end there when walked
      backwards; all of them lead to the other mint of the edge. */
  ghost predicate Lists(c: Config, graph: seq<seq<EdgeWithNodes>>, placed: set<nat>)
  {
    && |graph| == c.mintCount && (forall e :: e in placed ==> e < |c.edges|)
    && (forall n, i, j :: 0 <= n < |graph| && 0 <= i < j < |graph[n]| ==> graph[n][i].edge != graph[n][j].edge)
    && (forall n, r :: 0 <= n < |graph| && r in graph[n] ==>
          && r.edge in placed && r.source == n
          && (c.mode == ExactIn ==> c.edges[r.edge].source == n && c.edges[r.edge].target == r.target)
          && (c.mode == ExactOut ==> c.edges[r.edge].target == n && c.edges[r.edge].source == r.target))
    && (forall e :: e in placed ==>
          var n := if c.mode == ExactIn then c.edges[e].source else c.edges[e].target;
          n < |graph| && exists r :: r in graph[n] && r.edge == e)
  }

  /** The selected edges are those chosen for some warming amount, the best for each. */
  ghost predicate AllChosen(c: Config, chosen: seq<set<nat>>, selected: set<nat>)
  {
    && |chosen| == c.warmingCount && (forall i :: 0 <= i < |chosen| ==> BestChosen(c, i, chosen[i]))
    && (forall e: nat :: e in selected <==> exists i :: 0 <= i < |chosen| && e in chosen[i])
  }

  /** Placed are all selected edges of impact up to a quarter, and others only to give a mint an edge
      it would lack in one direction; and every mint of a selected edge has one in that direction. */
  ghost predicate Connects(c: Config, selected: set<nat>, placed: set<nat>)
  {
    && placed <= selected && (forall e :: e in selected ==> e < |c.edges|)
    && (forall e :: e in selected && ImpactOf(c, e) <= 0.25 ==> e in placed)
    && (forall e :: e in placed && ImpactOf(c, e) > 0.25 ==> LeastImpact(c, selected, e))
    && forall e :: e in selected ==> KeepsBothSides(c, placed, e)
  }

  /** Some placed edge has the same input mint, and some the same output mint. */
  ghost predicate KeepsBothSides(c: Config, placed: set<nat>, e: nat)
  {
    && e < |c.edges|
    && (exists f :: f in placed && f < |c.edges| && c.edges[f].source == c.edges[e].source)
    && (exists f :: f in placed && f < |c.edges| && c.edges[f].target == c.edges[e].target)
  }

  /** What pruning comes to. */
  ghost predicate PrunedTo(c: Config, graph: seq<seq<EdgeWithNodes>>, chosen: seq<set<nat>>, selected: set<nat>,
                           placed: set<nat>)
  {
    AllChosen(c, chosen, selected) && Lists(c, graph, placed) && Connects(c, selected, placed)
  }

  lemma PrunedMeans(c: Config, graph: seq<seq<EdgeWithNodes>>, tops: seq<map<Pair, Ranked>>, selected: set<nat>,
                    placed: set<nat>)
    requires c.WellFormed() && Pruned(c, graph, tops, selected, placed)
    ensures PrunedTo(c, graph, seq(|tops|, i requires 0 <= i < |tops| => IndicesOf(tops[i])), selected, placed)
  {
    hide AllChosen, Lists, Connects, Config.WellFormed, Tops, SelectedBy, GraphOf, Touched, Rescued, Impact;
    ChosenMeans(c, tops, selected, seq(|tops|, i requires 0 <= i < |tops| => IndicesOf(tops[i])));
    ListsMeans(c, graph, placed);
    ConnectsMeans(c, selected, placed);
  }

  lemma ConnectsMeans(c: Config, selected: set<nat>, placed: set<nat>)
    requires placed <= selected
    requires forall e: nat :: e in selected ==> e < |c.edges| && (Impact(c, e) <= IMPACT_LIMIT ==> e in placed)
    requires forall e: nat :: e in placed && e < |c.edges| && Impact(c, e) > IMPACT_LIMIT ==> Rescued(c, selected, e)
    requires forall s :: Touched(c, selected, s) ==> Touched(c, placed, s)
    ensures Connects(c, selected, placed)
  {
    SidesMean(c, selected, placed);
    hide Touched, Rescued, LeastImpact, KeepsBothSides, Impact, ImpactOf;
    forall e | e in placed && ImpactOf(c, e) > 0.25 ensures LeastImpact(c, selected, e) {
      ImpactIs(c, e);
      RescuedMeans(c, selected, e);
    }
    forall e | e in selected && ImpactOf(c, e) <= 0.25 ensures e in placed {
      ImpactIs(c, e);
    }
  }

  lemma ImpactIs(c: Config, e: nat)
    requires e < |c.edges|
    ensures Impact(c, e) == ImpactOf(c, e)
  {
  }

  lemma ChosenMeans(c: Config, tops: seq<map<Pair, Ranked>>, selected: set<nat>, chosen: seq<set<nat>>)
    requires c.WellFormed() && |tops| == c.warmingCount
    requires forall i :: 0 <= i < |tops| ==> Tops(c, i, |c.edges|, tops[i])
    requires forall e: nat :: e in selected <==> SelectedBy(tops, e)
    requires |chosen| == |tops| && forall i :: 0 <= i < |tops| ==> chosen[i] == IndicesOf(tops[i])
    ensures AllChosen(c, chosen, selected)
  {
    hide Tops, InTop, BestChosen;
    forall i | 0 <= i < |chosen| ensures BestChosen(c, i, chosen[i]) {
      TopsChooseBest(c, i, tops[i]);
    }
    forall e: nat ensures e in selected <==> exists i :: 0 <= i < |chosen| && e in chosen[i] {
      if e in selected {
        var i, p :| 0 <= i < |tops| && InTop(tops[i], p, e);
        assert e in chosen[i];
      }
      if i :| 0 <= i < |chosen| && e in chosen[i] {
        var p :| InTop(tops[i], p, e);
      }
    }
  }

  lemma ListsMeans(c: Config, graph: seq<seq<EdgeWithNodes>>, placed: set<nat>)
    requires c.WellFormed() && GraphOf(c, graph, placed)
    ensures Lists(c, graph, placed)
  {
    forall n | 0 <= n < |graph| ensures ListOf(c, n, graph[n], placed) {
    }
    forall e | e in placed
      ensures var n := if c.mode == ExactIn then c.edges[e].source else c.edges[e].target;
              n < |graph| && exists r :: r in graph[n] && r.edge == e
    {
      assert Record(c, e) in graph[ListNode(c, e)];
    }
  }

  lemma SidesMean(c: Config, selected: set<nat>, placed: set<nat>)
    requires (forall e :: e in selected ==> e < |c.edges|) && placed <= selected
    requires forall s :: Touched(c, selected, s) ==> Touched(c, placed, s)
    ensures forall e :: e in selected ==> KeepsBothSides(c, placed, e)
  {
    forall e | e in selected ensures KeepsBothSides(c, placed, e) {
      assert Touches(c, e, (c.edges[e].source, true)) && Touches(c, e, (c.edges[e].target, false));
      assert Touched(c, placed, (c.edges[e].source, true)) && Touched(c, placed, (c.edges[e].target, false));
    }
  }

  lemma RescuedMeans(c: Config, selected: set<nat>, e: nat)
    requires (forall f :: f in selected ==> f < |c.edges|) && Rescued(c, selected, e)
    ensures LeastImpact(c, selected, e)
  {
    var s :| LowestFor(c, s, e, selected);
    assert forall f :: f in selected && (if s.1 then c.edges[f].source else c.edges[f].target) == s.0 ==>
      Touches(c, f, s);
  }

  /** The whole pruning. */
  method SelectBestPools(c: Config) returns (count: nat, graph: seq<seq<EdgeWithNodes>>)
    requires c.WellFormed()
    ensures exists chosen, selected, placed :: PrunedTo(c, graph, chosen, selected, placed) && count == |placed|
  {
    hide GraphOf, AllLowest, AllKnown, Config.WellFormed, Impact, Touched, Rescued, Tops, SelectedBy, PrunedTo;
    var result, has, lowest;
    ghost var tops, good, placed;
    result, tops := SelectEdges(c);
    graph, has, lowest, count, good := PlaceGoodEdges(c, result);
    graph, count, placed := RescueSides(c, result, graph, has, lowest, count, good);
    assert Pruned(c, graph, tops, result, placed);
    PrunedMeans(c, graph, tops, result, placed);
  }
}
