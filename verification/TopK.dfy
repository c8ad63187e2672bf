/** The bounded list of best paths kept for one mint: how an offered path is taken in, and what
    the list then is as a function of everything ever offered. */
module TopK {
  import opened Common

  type Path = seq<EdgeWithNodes>

  /** A slot of a list: the infinite padding value with no path, or a path with its amount. */
  datatype Slot = Sentinel | Kept(amount: real, path: Path)

  /** `a` is strictly better than `b`: more output, or less input. Padding is worst of all. */
  predicate Better(mode: SwapMode, a: Slot, b: Slot)
  {
    a.Kept? && (b.Sentinel? || (if mode.ExactIn? then a.amount > b.amount else a.amount < b.amount))
  }

  ghost predicate Sorted(mode: SwapMode, s: seq<Slot>)
  {
    forall i, j :: 0 <= i < j < |s| ==> !Better(mode, s[j], s[i])
  }

  /** Where a stable sort puts `x` when it follows the sorted list `s`. */
  function Insert(mode: SwapMode, s: seq<Slot>, x: Slot): (r: seq<Slot>)
    ensures |r| == |s| + 1
  {
    if s == [] || !Better(mode, x, s[|s| - 1]) then s + [x]
    else Insert(mode, s[..|s| - 1], x) + [s[|s| - 1]]
  }

  /** Stable sort by amount, best first. */
  function SortByKey(mode: SwapMode, s: seq<Slot>): (r: seq<Slot>)
    ensures |r| == |s|
  {
    if s == [] then [] else Insert(mode, SortByKey(mode, s[..|s| - 1]), s[|s| - 1])
  }

  /** The loop over the list: same amount, same length, same edges. */
  method PathAlreadyIn(currentPath: Path, addedHop: EdgeWithNodes, outAmount: real, bestPaths: seq<Slot>)
    returns (alreadyExists: bool)
    ensures alreadyExists <==>
            exists k :: 0 <= k < |bestPaths| && SameRoute(bestPaths[k], outAmount, currentPath + [addedHop])
  {
    alreadyExists := false;
    var k := 0;
    while k < |bestPaths|
      invariant 0 <= k <= |bestPaths|
      invariant forall j :: 0 <= j < k ==> !SameRoute(bestPaths[j], outAmount, currentPath + [addedHop])
    {
      var existing := bestPaths[k];
      if existing.Kept? && existing.amount == outAmount && |existing.path| == |currentPath| + 1 {
        var i := 0;
        while i < |currentPath| && existing.path[i].edge == currentPath[i].edge
          invariant 0 <= i <= |currentPath|
          invariant forall j :: 0 <= j < i ==> existing.path[j].edge == currentPath[j].edge
        {
          i := i + 1;
        }
        if i == |currentPath| && existing.path[|existing.path| - 1].edge == addedHop.edge {
          assert SameRoute(bestPaths[k], outAmount, currentPath + [addedHop]);
          return true;
        }
        assert (currentPath + [addedHop])[i].edge != existing.path[i].edge;
      }
      k := k + 1;
    }
  }

  predicate SameRoute(slot: Slot, amount: real, path: Path)
  {
    && slot.Kept? && slot.amount == amount && |slot.path| == |path|
    && forall i :: 0 <= i < |path| ==> slot.path[i].edge == path[i].edge
  }

  /** Pop the worst path, push the new one, sort again; unless the path is there already. */
  method ReplaceWorstPath(currentPath: Path, addedHop: EdgeWithNodes, outAmount: real,
                          bestPaths: seq<Slot>, mode: SwapMode) returns (r: seq<Slot>)
    requires |bestPaths| > 0
    ensures r ==
            if exists k :: 0 <= k < |bestPaths| && SameRoute(bestPaths[k], outAmount, currentPath + [addedHop])
            then bestPaths
            else SortByKey(mode, bestPaths[..|bestPaths| - 1] + [Kept(outAmount, currentPath + [addedHop])])
  {
    r := bestPaths;
    var alreadyExists := PathAlreadyIn(currentPath, addedHop, outAmount, bestPaths);
    if !alreadyExists {
      r := r[..|r| - 1];
      r := r + [Kept(outAmount, currentPath + [addedHop])];
      r := SortByKey(mode, r);
    }
  }

  // ---- Reference: the ranking of everything offered ----

  /** All distinct offers, best first, equally good ones in the order first offered. */
  ghost function Ranked(mode: SwapMode, offered: seq<Slot>): seq<Slot>
  {
    if offered == [] then []
    else
      var rest, x := offered[..|offered| - 1], offered[|offered| - 1];
      if x in rest then Ranked(mode, rest) else Insert(mode, Ranked(mode, rest), x)
  }

  function Padding(k: nat): (r: seq<Slot>)
    ensures |r| == k
  {
    seq(k, _ => Sentinel)
  }

  /** The `k` best distinct offers, padded. */
  ghost function BestK(mode: SwapMode, k: nat, offered: seq<Slot>): (r: seq<Slot>)
    ensures |r| == k
  {
    (Ranked(mode, offered) + Padding(k))[..k]
  }

  /** What one offer does to a list. */
  function Offer(mode: SwapMode, best: seq<Slot>, x: Slot): (r: seq<Slot>)
    requires |best| > 0
    ensures |r| == |best|
  {
    if Better(mode, x, best[|best| - 1]) && x !in best
    then SortByKey(mode, best[..|best| - 1] + [x]) else best
  }

  // ---- Insertion ----

  lemma {:induction false} InsertSorted(mode: SwapMode, s: seq<Slot>, x: Slot)
    requires Sorted(mode, s)
    ensures Sorted(mode, Insert(mode, s, x))
    ensures forall y :: y in Insert(mode, s, x) <==> y in s || y == x
  {
    if s == [] || !Better(mode, x, s[|s| - 1]) {
      assert forall i :: 0 <= i < |s| ==> !Better(mode, x, s[i]);
    } else {
      var init, last := s[..|s| - 1], s[|s| - 1];
      InsertSorted(mode, init, x);
      assert s == init + [last];
      var r := Insert(mode, init, x);
      forall i | 0 <= i < |r|
        ensures !Better(mode, last, r[i])
      {
        assert r[i] in init || r[i] == x;
      }
    }
  }

  lemma {:induction false} SortOfSorted(mode: SwapMode, s: seq<Slot>)
    requires Sorted(mode, s)
    ensures SortByKey(mode, s) == s
  {
    if s != [] {
      SortOfSorted(mode, s[..|s| - 1]);
      if |s| > 1 {
        assert !Better(mode, s[|s| - 1], s[|s| - 2]);
      }
      assert s == s[..|s| - 1] + [s[|s| - 1]];
    }
  }

  /** Keeping only the first `k` after an insertion needs only the first `k` before it. */
  lemma {:induction false} TakeInsert(mode: SwapMode, s: seq<Slot>, x: Slot, k: nat)
    requires Sorted(mode, s) && 1 <= k <= |s|
    ensures Insert(mode, s, x)[..k] == if Better(mode, x, s[k - 1]) then Insert(mode, s[..k - 1], x) else s[..k]
    decreases |s|
  {
    var init, last := s[..|s| - 1], s[|s| - 1];
    if Better(mode, x, last) {
      if k < |s| {
        TakeInsert(mode, init, x, k);
        assert init[..k - 1] == s[..k - 1] && init[..k] == s[..k];
        assert Insert(mode, s, x)[..k] == Insert(mode, init, x)[..k];
      } else {
        assert Insert(mode, s, x)[..k] == Insert(mode, init, x);
      }
    } else {
      assert !Better(mode, x, s[k - 1]) by {
        if k < |s| { assert !Better(mode, last, s[k - 1]); }
      }
    }
  }

  lemma {:induction false} InsertBeforePadding(mode: SwapMode, s: seq<Slot>, x: Slot, k: nat)
    requires x.Kept?
    ensures Insert(mode, s + Padding(k), x) == Insert(mode, s, x) + Padding(k)
    decreases k
  {
    if k == 0 {
      assert s + Padding(0) == s;
      assert Insert(mode, s, x) + Padding(0) == Insert(mode, s, x);
    } else {
      var t := s + Padding(k);
      assert t[..|t| - 1] == s + Padding(k - 1);
      assert t[|t| - 1] == Sentinel;
      InsertBeforePadding(mode, s, x, k - 1);
      assert Padding(k - 1) + [Sentinel] == Padding(k);
    }
  }

  // ---- The ranking ----

  lemma {:induction false} RankedProperties(mode: SwapMode, offered: seq<Slot>)
    requires forall i :: 0 <= i < |offered| ==> offered[i].Kept?
    ensures Sorted(mode, Ranked(mode, offered))
    ensures forall y :: y in Ranked(mode, offered) <==> y in offered
    ensures Distinct(Ranked(mode, offered))
  {
    if offered != [] {
      var rest, x := offered[..|offered| - 1], offered[|offered| - 1];
      assert offered == rest + [x];
      RankedProperties(mode, rest);
      InsertSorted(mode, Ranked(mode, rest), x);
      if x !in rest {
        InsertDistinct(mode, Ranked(mode, rest), x);
      }
    }
  }

  lemma {:induction false} InsertDistinct(mode: SwapMode, s: seq<Slot>, x: Slot)
    requires Sorted(mode, s) && Distinct(s) && x !in s
    ensures Distinct(Insert(mode, s, x))
  {
    if s != [] && Better(mode, x, s[|s| - 1]) {
      var init, last := s[..|s| - 1], s[|s| - 1];
      assert s == init + [last];
      InsertDistinct(mode, init, x);
      InsertSorted(mode, init, x);
      assert last !in Insert(mode, init, x);
    }
  }

  // ---- Equally good paths ----

  /** `x` was offered before `y` ever was. */
  ghost predicate OfferedBefore(offered: seq<Slot>, x: Slot, y: Slot)
  {
    exists a :: 0 <= a < |offered| && offered[a] == x && forall b :: 0 <= b <= a ==> offered[b] != y
  }

  /** `x` ranks above `y`: it is better, or as good and offered first. */
  ghost predicate Above(mode: SwapMode, offered: seq<Slot>, x: Slot, y: Slot)
  {
    Better(mode, x, y) || (!Better(mode, y, x) && OfferedBefore(offered, x, y))
  }

  lemma AboveStays(mode: SwapMode, offered: seq<Slot>, z: Slot, x: Slot, y: Slot)
    requires Above(mode, offered, x, y)
    ensures Above(mode, offered + [z], x, y)
  {
    if !Better(mode, x, y) {
      var a :| 0 <= a < |offered| && offered[a] == x && forall b :: 0 <= b <= a ==> offered[b] != y;
      assert (offered + [z])[a] == x && forall b :: 0 <= b <= a ==> (offered + [z])[b] == offered[b];
    }
  }

  /** The sort is stable: an inserted path comes behind all that are no worse. */
  lemma {:induction false} InsertPlace(mode: SwapMode, s: seq<Slot>, x: Slot) returns (p: nat)
    requires Sorted(mode, s)
    ensures p <= |s| && Insert(mode, s, x) == s[..p] + [x] + s[p..]
    ensures forall i :: 0 <= i < p ==> !Better(mode, x, s[i])
    ensures forall i :: p <= i < |s| ==> Better(mode, x, s[i])
  {
    if s == [] || !Better(mode, x, s[|s| - 1]) {
      p := |s|;
    } else {
      var init := s[..|s| - 1];
      p := InsertPlace(mode, init, x);
      assert s[..p] == init[..p] && s[p..] == init[p..] + [s[|s| - 1]];
    }
  }

  ghost predicate AllAbove(mode: SwapMode, offered: seq<Slot>, r: seq<Slot>)
  {
    forall i, j :: 0 <= i < j < |r| ==> Above(mode, offered, r[i], r[j])
  }

  lemma {:induction false} RankedAbove(mode: SwapMode, offered: seq<Slot>)
    requires forall i :: 0 <= i < |offered| ==> offered[i].Kept?
    ensures AllAbove(mode, offered, Ranked(mode, offered))
  {
    if offered != [] {
      var rest, x := offered[..|offered| - 1], offered[|offered| - 1];
      assert offered == rest + [x];
      RankedAbove(mode, rest);
      RankedProperties(mode, rest);
      hide AllAbove, Insert;
      AllStay(mode, rest, x, Ranked(mode, rest));
      if x !in rest {
        NewestLast(mode, rest, x, Ranked(mode, rest));
      }
    }
  }

  lemma AllStay(mode: SwapMode, offered: seq<Slot>, x: Slot, r: seq<Slot>)
    requires AllAbove(mode, offered, r)
    ensures AllAbove(mode, offered + [x], r)
  {
    hide Above;
    forall i, j | 0 <= i < j < |r| ensures Above(mode, offered + [x], r[i], r[j]) {
      AboveStays(mode, offered, x, r[i], r[j]);
    }
  }

  /** A path offered for the first time ranks behind the ones as good. */
  lemma NewestLast(mode: SwapMode, offered: seq<Slot>, x: Slot, r: seq<Slot>)
    requires AllAbove(mode, offered + [x], r) && Sorted(mode, r) && x !in offered
    requires forall y :: y in r ==> y in offered
    ensures AllAbove(mode, offered + [x], Insert(mode, r, x))
  {
    hide Insert;
    var p := InsertPlace(mode, r, x);
    forall i | 0 <= i < p ensures Above(mode, offered + [x], r[i], x) {
      assert r[i] in r;
      FirstTime(offered, r[i], x);
    }
    InsertedAbove(mode, offered + [x], r, x, p);
  }

  lemma FirstTime(offered: seq<Slot>, y: Slot, x: Slot)
    requires y in offered && x !in offered
    ensures OfferedBefore(offered + [x], y, x)
  {
    var a :| 0 <= a < |offered| && offered[a] == y;
    assert (offered + [x])[a] == y;
    assert forall b :: 0 <= b <= a ==> (offered + [x])[b] == offered[b];
  }

  lemma InsertedAbove(mode: SwapMode, offered: seq<Slot>, s: seq<Slot>, x: Slot, p: nat)
    requires p <= |s| && AllAbove(mode, offered, s)
    requires forall i :: 0 <= i < p ==> Above(mode, offered, s[i], x)
    requires forall i :: p <= i < |s| ==> Better(mode, x, s[i])
    ensures AllAbove(mode, offered, s[..p] + [x] + s[p..])
  {
    hide OfferedBefore;
  }

  /** Ties in the list go to the path offered first, against the others kept and those not kept. */
  lemma TiesMeaning(mode: SwapMode, k: nat, offered: seq<Slot>)
    requires k >= 1
    requires forall i :: 0 <= i < |offered| ==> offered[i].Kept?
    ensures var best := BestK(mode, k, offered);
            && (forall i, j :: 0 <= i < j < k && best[j].Kept? ==> Above(mode, offered, best[i], best[j]))
            && (forall x, i :: x in offered && x !in best && 0 <= i < k ==> Above(mode, offered, best[i], x))
  {
    var ranked := Ranked(mode, offered);
    var best := BestK(mode, k, offered);
    RankedProperties(mode, offered);
    RankedAbove(mode, offered);
    hide Above, Ranked, Sorted;
    assert forall i :: 0 <= i < k ==> best[i] == if i < |ranked| then ranked[i] else Sentinel;
    forall i, j | 0 <= i < j < k && best[j].Kept? ensures Above(mode, offered, best[i], best[j]) {
      assert best[i] == ranked[i] && best[j] == ranked[j];
    }
    forall x, i | x in offered && x !in best && 0 <= i < k ensures Above(mode, offered, best[i], x) {
      var j :| 0 <= j < |ranked| && ranked[j] == x;
      assert Above(mode, offered, ranked[i], ranked[j]);
    }
  }

  lemma PaddedSorted(mode: SwapMode, s: seq<Slot>, k: nat)
    requires Sorted(mode, s)
    ensures Sorted(mode, s + Padding(k))
  {
  }

  /** Offering a path again, whether it is still kept or long evicted, changes nothing. */
  lemma RepeatedOffer(mode: SwapMode, k: nat, offered: seq<Slot>, x: Slot)
    requires k >= 1 && x in offered
    requires forall i :: 0 <= i < |offered| ==> offered[i].Kept?
    ensures Offer(mode, BestK(mode, k, offered), x) == BestK(mode, k, offered)
  {
    var ranked := Ranked(mode, offered);
    var padded := ranked + Padding(k);
    RankedProperties(mode, offered);
    PaddedSorted(mode, ranked, k);
    if x !in BestK(mode, k, offered) {
      var i :| 0 <= i < |ranked| && ranked[i] == x;
      assert padded[i] == x && i >= k;
      assert !Better(mode, padded[i], padded[k - 1]);
    }
  }

  lemma FreshOffer(mode: SwapMode, k: nat, offered: seq<Slot>, x: Slot)
    requires k >= 1 && x.Kept? && x !in offered
    requires forall i :: 0 <= i < |offered| ==> offered[i].Kept?
    ensures Offer(mode, BestK(mode, k, offered), x) == (Insert(mode, Ranked(mode, offered), x) + Padding(k))[..k]
  {
    var ranked := Ranked(mode, offered);
    var padded := ranked + Padding(k);
    var best := BestK(mode, k, offered);
    RankedProperties(mode, offered);
    PaddedSorted(mode, ranked, k);
    forall i | 0 <= i < k ensures best[i] != x {
      assert best[i] == padded[i];
    }
    InsertBeforePadding(mode, ranked, x, k);
    OfferToSorted(mode, padded, x, k);
  }

  lemma OfferToSorted(mode: SwapMode, s: seq<Slot>, x: Slot, k: nat)
    requires Sorted(mode, s) && 1 <= k <= |s| && x !in s[..k]
    ensures Offer(mode, s[..k], x) == Insert(mode, s, x)[..k]
  {
    hide Insert;
    var front := s[..k - 1];
    TakeInsert(mode, s, x, k);
    SortOfSorted(mode, front);
    assert s[..k][..k - 1] == front && (front + [x])[..k - 1] == front;
  }

  /** One offer to the list is one more offer in the ranking: the list remains the `k` best
      distinct offers. */
  lemma OfferIsTopK(mode: SwapMode, k: nat, offered: seq<Slot>, x: Slot)
    requires k >= 1 && x.Kept?
    requires forall i :: 0 <= i < |offered| ==> offered[i].Kept?
    ensures Offer(mode, BestK(mode, k, offered), x) == BestK(mode, k, offered + [x])
  {
    assert (offered + [x])[..|offered|] == offered;
    if x in offered {
      RepeatedOffer(mode, k, offered, x);
    } else {
      FreshOffer(mode, k, offered, x);
    }
  }

  /** The list, read without the ranking: `k` slots, best first; each kept path was offered and
      appears once; and an offered path that is not kept is no better than any kept one. */
  lemma TopKMeaning(mode: SwapMode, k: nat, offered: seq<Slot>)
    requires k >= 1
    requires forall i :: 0 <= i < |offered| ==> offered[i].Kept?
    ensures var best := BestK(mode, k, offered);
            && |best| == k && Sorted(mode, best)
            && (forall i :: 0 <= i < k && best[i].Kept? ==> best[i] in offered)
            && (forall i, j :: 0 <= i < j < k && best[j].Kept? ==> best[i] != best[j])
            && (forall x, i :: x in offered && x !in best && 0 <= i < k ==> best[i].Kept? && !Better(mode, x, best[i]))
  {
    var ranked := Ranked(mode, offered);
    var padded := ranked + Padding(k);
    var best := BestK(mode, k, offered);
    RankedProperties(mode, offered);
    PaddedSorted(mode, ranked, k);
    forall i | 0 <= i < k && best[i].Kept? ensures best[i] in offered {
      assert best[i] == padded[i] == ranked[i];
    }
    forall x, i | x in offered && x !in best && 0 <= i < k
      ensures best[i].Kept? && !Better(mode, x, best[i])
    {
      var j :| 0 <= j < |ranked| && ranked[j] == x;
      assert padded[j] == x;
      assert forall m :: 0 <= m < k ==> best[m] == padded[m];
      assert best[i] == ranked[i] && best[i] in offered;
    }
  }
}
